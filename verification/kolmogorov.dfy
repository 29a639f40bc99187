/** `kolmogorov_test.py`: the Kolmogorov-Smirnov distance between the
    empirical distribution of a byte sample and the uniform distribution over
    the 256 byte values, and its three-way interpretation. */
module Kolmogorov {
  import opened Common
  import opened Histogram

  /** The `info` dictionary. The two critical-value entries
      (`1.63 / sqrt(n)`, `1.36 / sqrt(n)`) are not kept: the interpretation
      below decides against them without a square root. */
  datatype KsInfo = KsInfo(
    maxDifference: real,
    maxDifferencePosition: nat,
    maxDifferenceValue: nat,
    sampleSize: nat)

  /** `|empirical_cdf[i] - theoretical_cdf[i]|` for a non-empty histogram. */
  function Difference(c: multiset<Byte>, i: nat): real
    requires |c| > 0 && i < 256
  {
    AbsReal(CdfEntry(c, |c|, i) - (i + 1) as real / 256.0)
  }

  /** `np.max` and `np.argmax` over a non-empty array: the largest value and
      the first position where it occurs. */
  method MaxAndArgMax(xs: seq<real>) returns (m: real, k: nat)
    requires |xs| > 0
    ensures k < |xs| && m == xs[k]
    ensures forall j :: 0 <= j < |xs| ==> xs[j] <= m
    ensures forall j :: 0 <= j < k ==> xs[j] < m
  {
    m, k := xs[0], 0;
    var i := 1;
    while i < |xs|
      invariant 1 <= i <= |xs|
      invariant k < i && m == xs[k]
      invariant forall j :: 0 <= j < i ==> xs[j] <= m
      invariant forall j :: 0 <= j < k ==> xs[j] < m
    {
      if xs[i] > m {
        m, k := xs[i], i;
      }
      i := i + 1;
    }
  }

  /** The distance never exceeds 255/256 and vanishes at the last byte
      value, where both distributions reach 1. */
  lemma DifferenceBounds(c: multiset<Byte>, i: nat)
    requires |c| > 0 && i < 256
    ensures 0.0 <= Difference(c, i) <= 255.0 / 256.0
    ensures Difference(c, 255) == 0.0
  {
    CdfIsDistribution(c);
    assert CdfEntry(c, |c|, i) == CdfOf(c)[i];
    assert CdfEntry(c, |c|, 255) == CdfOf(c)[255];
  }

  /** `calculate_kolmogorov_smirnov`: validates and counts the sample, builds
      its empirical distribution (dividing by the sample size, so an empty
      sample fails), and reports the largest distance to the uniform
      distribution with the first byte value where it occurs. */
  method CalculateKolmogorovSmirnov(input: ByteInput) returns (r: Result<(real, KsInfo)>)
    ensures ToByteList(input).Failure? ==> r == Failure(ValueError)
    ensures ToByteList(input).Success? && ToByteList(input).value == [] ==> r == Failure(ZeroDivisionError)
    ensures r.Success? <==> ToByteList(input).Success? && |ToByteList(input).value| > 0
    ensures r.Success? ==>
              var bytes := ToByteList(input).value;
              var c := multiset(bytes);
              var (ks, info) := r.value;
              && (forall i :: 0 <= i < 256 ==> Difference(c, i) <= ks)
              && info.maxDifferencePosition < 256
              && Difference(c, info.maxDifferencePosition) == ks
              && (forall i :: 0 <= i < info.maxDifferencePosition ==> Difference(c, i) < ks)
              && info.maxDifference == ks
              && info.maxDifferenceValue == info.maxDifferencePosition
              && info.sampleSize == |bytes|
              && 0.0 <= ks <= 255.0 / 256.0
  {
    var bytes :- ToByteList(input);
    var n := |bytes|;
    var counter := multiset(bytes);
    var cdf :- EmpiricalCdf(counter, n);
    var theoretical := TheoreticalCdf();
    var differences := seq(256, i requires 0 <= i < 256 => AbsReal(cdf[i] - theoretical[i]));
    assert forall i :: 0 <= i < 256 ==> differences[i] == Difference(counter, i);
    var ks, position := MaxAndArgMax(differences);
    DifferenceBounds(counter, position);
    return Success((ks, KsInfo(ks, position, position, n)));
  }

  lemma {:induction false} ZeroSampleCounts(c: multiset<Byte>, k: nat)
    requires 1 <= k <= 256
    requires forall v: Byte :: v != 0 ==> c[v] == 0
    ensures CountBelow(c, k) == c[0]
  {
    if k > 1 {
      ZeroSampleCounts(c, k - 1);
    }
  }

  /** A sample of zero bytes only: its empirical distribution is 1 from the
      first byte value on, so the distance is largest, 255/256, at byte value
      0 (the constant-data extreme). */
  lemma AllZeroSample(data: seq<Byte>)
    requires |data| > 0
    requires forall i :: 0 <= i < |data| ==> data[i] == 0
    ensures Difference(multiset(data), 0) == 255.0 / 256.0
    ensures forall i :: 0 < i < 256 ==> Difference(multiset(data), i) < 255.0 / 256.0
  {
    var c := multiset(data);
    ZeroSampleHistogram(data);
    forall i | 0 <= i < 256
      ensures CdfEntry(c, |c|, i) == 1.0
    {
      ZeroSampleCounts(c, i + 1);
      DivSelf(|c| as real);
    }
  }

  lemma {:induction false} ZeroSampleHistogram(data: seq<Byte>)
    requires forall i :: 0 <= i < |data| ==> data[i] == 0
    ensures multiset(data)[0] == |data|
    ensures forall v: Byte :: v != 0 ==> multiset(data)[v] == 0
  {
    if data != [] {
      var init := data[..|data| - 1];
      assert data == init + [data[|data| - 1]];
      ZeroSampleHistogram(init);
    }
  }

  datatype KsVerdict =
    | LooksUniform      // "can be considered uniform (p > 0.05)"
    | MinorDeviation    // "minor deviations (0.01 < p <= 0.05)"
    | MajorDeviation    // "significant deviations (p <= 0.01)"

  const Coefficient005: real := 1.36
  const Coefficient001: real := 1.63

  /** `ks <= coefficient / sqrt(n)` decided without a square root. For
      `n == 0` numpy's `1.63 / sqrt(0)` is +inf, which every statistic is
      below; for a negative `n` the square root is NaN and every comparison
      with it is false. */
  predicate WithinCritical(ks: real, n: int, coefficient: real) {
    if n == 0 then true
    else if n < 0 then false
    else ks <= 0.0 || ks * ks * n as real <= coefficient * coefficient
  }

  /** `interpret_ks_result`: uniform below the alpha = 0.05 critical value,
      minor deviation below the alpha = 0.01 one, significant otherwise. */
  function InterpretKsResult(ks: real, sampleSize: int): (r: KsVerdict)
    ensures r == LooksUniform <==> WithinCritical(ks, sampleSize, Coefficient005)
    ensures r == MinorDeviation <==>
              !WithinCritical(ks, sampleSize, Coefficient005) && WithinCritical(ks, sampleSize, Coefficient001)
    ensures r == MajorDeviation <==> !WithinCritical(ks, sampleSize, Coefficient001)
  {
    CriticalValuesNested(ks, sampleSize);
    if WithinCritical(ks, sampleSize, Coefficient005) then LooksUniform
    else if WithinCritical(ks, sampleSize, Coefficient001) then MinorDeviation
    else MajorDeviation
  }

  /** `1.36 / sqrt(n) < 1.63 / sqrt(n)`: within the stricter bound implies
      within the looser one. */
  lemma CriticalValuesNested(ks: real, n: int)
    ensures WithinCritical(ks, n, Coefficient005) ==> WithinCritical(ks, n, Coefficient001)
  {
  }

  lemma ProductMonotone(a: real, b: real, s: real)
    requires s > 0.0
    ensures a <= b <==> a * s <= b * s
  {
  }

  lemma PositiveProduct(x: real, y: real)
    requires x > 0.0 && y > 0.0
    ensures x * y > 0.0
  {
  }

  lemma SquareStrictlyMonotone(a: real, b: real)
    requires b >= 0.0 && b < a
    ensures b * b < a * a
  {
    var d := a - b;
    assert a == b + d;
    assert a * a == b * b + 2.0 * b * d + d * d;
    PositiveProduct(d, d);
    assert b * d >= 0.0;
  }

  lemma SquareMonotone(a: real, b: real)
    requires a >= 0.0 && b >= 0.0
    ensures a <= b <==> a * a <= b * b
  {
    if a <= b {
      assert a * a <= a * b <= b * b;
    } else {
      SquareStrictlyMonotone(a, b);
    }
  }

  /** For a positive sample size with square root `s`, the square-root-free
      test is exactly `ks <= coefficient / s`. */
  lemma WithinCriticalBySqrt(ks: real, n: nat, s: real, coefficient: real)
    requires n > 0 && s > 0.0 && s * s == n as real && coefficient > 0.0
    ensures WithinCritical(ks, n, coefficient) <==> ks <= coefficient / s
  {
    var q := coefficient / s;
    assert q * s == coefficient;
    if ks > 0.0 {
      ProductMonotone(ks, q, s);
      SquareMonotone(ks * s, coefficient);
      assert (ks * s) * (ks * s) == ks * ks * (s * s);
    }
  }

  /** The three verdicts, stated with the square root of the sample size:
      uniform iff `ks <= 1.36 / sqrt(n)`, a minor deviation iff
      `1.36 / sqrt(n) < ks <= 1.63 / sqrt(n)`, significant otherwise. */
  lemma InterpretKsBySqrt(ks: real, n: nat, s: real)
    requires n > 0 && s > 0.0 && s * s == n as real
    ensures InterpretKsResult(ks, n) == LooksUniform <==> ks <= Coefficient005 / s
    ensures InterpretKsResult(ks, n) == MinorDeviation <==> Coefficient005 / s < ks <= Coefficient001 / s
    ensures InterpretKsResult(ks, n) == MajorDeviation <==> ks > Coefficient001 / s
  {
    WithinCriticalBySqrt(ks, n, s, Coefficient005);
    WithinCriticalBySqrt(ks, n, s, Coefficient001);
  }
}
