/** `pearson_criterion.py`: Pearson's chi-square statistic of a byte sample
    against the uniform distribution over the 256 byte values, and its
    interpretation against a fixed critical value. */
module Pearson {
  import opened Common
  import opened Histogram

  /** Critical value of chi-square with 255 degrees of freedom at alpha = 0.05. */
  const CriticalValue: real := 293.25

  /** Expected count of every byte value in a uniform sample of `n` bytes. */
  function Expected(n: nat): real {
    n as real / 256.0
  }

  /** The observed counts `byte_counts.get(v, 0)` of the byte values
      0..255, in the order the loop visits them. */
  function Observed(c: multiset<Byte>): (obs: seq<real>)
    ensures |obs| == 256
  {
    seq(256, v requires 0 <= v < 256 => c[v] as real)
  }

  /** One term `(observed - expected)^2 / expected` of the statistic. */
  function Term(observed: real, expected: real): (r: real)
    requires expected > 0.0
    ensures r >= 0.0
  {
    SquareOverPositive(observed - expected, expected);
    (observed - expected) * (observed - expected) / expected
  }

  lemma SquareOverPositive(d: real, e: real)
    requires e > 0.0
    ensures d * d / e >= 0.0
  {
    assert d * d >= 0.0;
  }

  /** The running `chi_square` after the bins in `obs`, accumulated in order. */
  function ChiSum(obs: seq<real>, expected: real): (r: real)
    requires expected > 0.0
    ensures r >= 0.0
  {
    if obs == [] then 0.0
    else ChiSum(obs[..|obs| - 1], expected) + Term(obs[|obs| - 1], expected)
  }

  /** Sum of the squared observed counts. */
  function SquareSum(obs: seq<real>): real {
    if obs == [] then 0.0 else SquareSum(obs[..|obs| - 1]) + obs[|obs| - 1] * obs[|obs| - 1]
  }

  /** The statistic of a non-empty sample with histogram `c`. */
  function ChiSquare(c: multiset<Byte>): real
    requires |c| > 0
  {
    ChiSum(Observed(c), Expected(|c|))
  }

  lemma DivAdd(a: real, b: real, e: real)
    requires e != 0.0
    ensures (a + b) / e == a / e + b / e
  {
  }

  /** `(o - e)^2 / e == o^2 / e - 2o + e`. */
  lemma TermExpand(o: real, e: real)
    requires e > 0.0
    ensures Term(o, e) == o * o / e - 2.0 * o + e
  {
    assert (o - e) * (o - e) == o * o - 2.0 * o * e + e * e;
    DivAdd(o * o, - 2.0 * o * e + e * e, e);
    DivAdd(- 2.0 * o * e, e * e, e);
    assert (- 2.0 * o * e) / e == -2.0 * o;
    assert ((e * e) / e - e) * e == 0.0;
    assert (e * e) / e == e;
  }

  /** The first parts `o^2 / e` of the expanded terms, summed. */
  function SquareShares(obs: seq<real>, e: real): real
    requires e > 0.0
  {
    if obs == [] then 0.0 else SquareShares(obs[..|obs| - 1], e) + obs[|obs| - 1] * obs[|obs| - 1] / e
  }

  lemma {:induction false} ChiSumSplit(obs: seq<real>, e: real)
    requires e > 0.0
    ensures ChiSum(obs, e) == SquareShares(obs, e) - 2.0 * SumReal(obs) + |obs| as real * e
  {
    if obs != [] {
      ChiSumSplit(obs[..|obs| - 1], e);
      TermExpand(obs[|obs| - 1], e);
    }
  }

  lemma {:induction false} SquareSharesQuotient(obs: seq<real>, e: real)
    requires e > 0.0
    ensures SquareShares(obs, e) == SquareSum(obs) / e
  {
    if obs != [] {
      var init, o := obs[..|obs| - 1], obs[|obs| - 1];
      SquareSharesQuotient(init, e);
      DivAdd(SquareSum(init), o * o, e);
    }
  }

  lemma ChiSumExpanded(obs: seq<real>, e: real)
    requires e > 0.0
    ensures ChiSum(obs, e) == SquareSum(obs) / e - 2.0 * SumReal(obs) + |obs| as real * e
  {
    ChiSumSplit(obs, e);
    SquareSharesQuotient(obs, e);
  }

  lemma {:induction false} ObservedPrefixSum(c: multiset<Byte>, k: nat)
    requires k <= 256
    ensures SumReal(Observed(c)[..k]) == CountBelow(c, k) as real
  {
    if k > 0 {
      ObservedPrefixSum(c, k - 1);
      assert Observed(c)[..k][..k - 1] == Observed(c)[..k - 1];
    }
  }

  /** The observed counts add up to the sample size. */
  lemma ObservedSum(c: multiset<Byte>)
    ensures SumReal(Observed(c)) == |c| as real
  {
    ObservedPrefixSum(c, 256);
    assert Observed(c)[..256] == Observed(c);
    CountBelowTotal(c);
  }

  lemma OverExpected(x: real, n: real)
    requires n > 0.0
    ensures x / (n / 256.0) == 256.0 * x / n
  {
    var e := n / 256.0;
    assert n == 256.0 * e;
    var q := x / e;
    assert q * e == x;
    assert 256.0 * x / n == 256.0 * (q * e) / (256.0 * e);
  }

  /** The statistic in closed form: `256 * Σ observed^2 / n - n`. It
      therefore depends only on the squared bin counts. */
  lemma ChiSquareClosedForm(c: multiset<Byte>)
    requires |c| > 0
    ensures ChiSquare(c) == 256.0 * SquareSum(Observed(c)) / |c| as real - |c| as real
  {
    var n := |c| as real;
    ChiSumExpanded(Observed(c), Expected(|c|));
    ObservedSum(c);
    OverExpected(SquareSum(Observed(c)), n);
    assert 256.0 * (n / 256.0) == n;
  }

  /** `calculate_pearson_criterion`: validates the input, counts the bytes
      and sums the 256 chi-square terms. An empty sample makes the expected
      count 0 and the first term divides by it. */
  function CalculatePearsonCriterion(input: ByteInput): (r: Result<real>)
    ensures ToByteList(input).Failure? ==> r == Failure(ValueError)
    ensures ToByteList(input).Success? && ToByteList(input).value == [] ==> r == Failure(ZeroDivisionError)
    ensures r.Success? <==> ToByteList(input).Success? && |ToByteList(input).value| > 0
    ensures r.Success? ==>
              var bytes := ToByteList(input).value;
              && r.value >= 0.0
              && r.value == 256.0 * SquareSum(Observed(multiset(bytes))) / |bytes| as real - |bytes| as real
  {
    var bytes :- ToByteList(input);
    if |bytes| == 0 then Failure(ZeroDivisionError)
    else
      ChiSquareClosedForm(multiset(bytes));
      Success(ChiSquare(multiset(bytes)))
  }

  /** The statistic depends only on the histogram: reordering the sample
      does not change it. */
  lemma PermutationInvariant(a: seq<Byte>, b: seq<Byte>)
    requires multiset(a) == multiset(b)
    ensures CalculatePearsonCriterion(BytesObject(a)) == CalculatePearsonCriterion(BytesObject(b))
  {
    assert |a| == |multiset(a)| == |multiset(b)| == |b|;
  }

  lemma {:induction false} ConstantHistogram(data: seq<Byte>, b: Byte)
    requires forall i :: 0 <= i < |data| ==> data[i] == b
    ensures multiset(data)[b] == |data|
    ensures forall v: Byte :: v != b ==> multiset(data)[v] == 0
  {
    if data != [] {
      var init := data[..|data| - 1];
      assert data == init + [data[|data| - 1]];
      ConstantHistogram(init, b);
    }
  }

  lemma {:induction false} SquareSumOfSingleBin(obs: seq<real>, b: nat, x: real)
    requires forall v :: 0 <= v < |obs| ==> obs[v] == if v == b then x else 0.0
    ensures SquareSum(obs) == if b < |obs| then x * x else 0.0
  {
    if obs != [] {
      SquareSumOfSingleBin(obs[..|obs| - 1], b, x);
    }
  }

  /** A sample made of one repeated byte value has statistic `255 * n`. */
  lemma ConstantSample(data: seq<Byte>, b: Byte)
    requires |data| > 0
    requires forall i :: 0 <= i < |data| ==> data[i] == b
    ensures CalculatePearsonCriterion(BytesObject(data)) == Success(255.0 * |data| as real)
  {
    var c := multiset(data);
    var n := |data| as real;
    ConstantHistogram(data, b);
    SquareSumOfSingleBin(Observed(c), b, n);
    var r := CalculatePearsonCriterion(BytesObject(data));
    assert r.value == 256.0 * (n * n) / n - n;
    SquareOverSelf(n);
  }

  lemma SquareOverSelf(n: real)
    requires n > 0.0
    ensures 256.0 * (n * n) / n - n == 255.0 * n
  {
    assert (n * n) / n == n;
  }

  lemma {:induction false} UniformTermsVanish(obs: seq<real>, e: real)
    requires e > 0.0
    requires forall v :: 0 <= v < |obs| ==> obs[v] == e
    ensures ChiSum(obs, e) == 0.0
  {
    if obs != [] {
      UniformTermsVanish(obs[..|obs| - 1], e);
      assert Term(obs[|obs| - 1], e) == 0.0;
    }
  }

  /** A sample in which every byte value occurs exactly `n / 256` times has
      statistic 0. */
  lemma UniformSample(data: seq<Byte>)
    requires |data| > 0
    requires forall v: Byte :: multiset(data)[v] * 256 == |data|
    ensures CalculatePearsonCriterion(BytesObject(data)) == Success(0.0)
  {
    var c := multiset(data);
    var obs := Observed(c);
    forall v | 0 <= v < 256
      ensures obs[v] == Expected(|data|)
    {
      assert c[v] as real * 256.0 == |data| as real;
    }
    UniformTermsVanish(obs, Expected(|data|));
  }

  datatype PearsonVerdict =
    | LooksUniform   // "the distribution can be considered uniform"
    | Deviates       // "the distribution deviates from uniform"

  /** `interpret_pearson_result`: the statistic against the fixed critical
      value 293.25. The significance level argument is accepted but never
      consulted. */
  function InterpretPearsonResult(chiSquare: real, significanceLevel: real): (r: PearsonVerdict)
    ensures r == LooksUniform <==> chiSquare <= CriticalValue
    ensures r == Deviates <==> chiSquare > CriticalValue
  {
    if chiSquare <= CriticalValue then LooksUniform else Deviates
  }

  /** A constant sample of at least two bytes is always judged non-uniform
      (its statistic `255 * n` exceeds 293.25 from n = 2 on), whatever
      significance level is passed. */
  lemma ConstantSampleDeviates(data: seq<Byte>, b: Byte, alpha: real)
    requires |data| >= 2
    requires forall i :: 0 <= i < |data| ==> data[i] == b
    ensures CalculatePearsonCriterion(BytesObject(data)).Success?
    ensures InterpretPearsonResult(CalculatePearsonCriterion(BytesObject(data)).value, alpha) == Deviates
  {
    ConstantSample(data, b);
  }

  /** A 4096-byte all-zero buffer: statistic 4096 * 255 = 1044480. */
  lemma AllZeroBuffer()
    ensures CalculatePearsonCriterion(BytesObject(seq(4096, _ => 0))) == Success(1044480.0)
  {
    ConstantSample(seq(4096, _ => 0), 0);
  }
}
