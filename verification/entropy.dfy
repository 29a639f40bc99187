/** `entropy_estimation` of `primary_analysis.py`: the chunked byte count
    followed by the Shannon sum over the byte values that occur. The
    logarithm `mpmath.log(p, 2)` is a parameter; only which values it is
    applied to, and how the terms are combined, is modelled. */
module Entropy {
  import opened Common
  import opened Histogram

  /** The sum of the terms `p·log2(p)`, accumulated in visiting order. */
  function ShannonSum(ps: seq<real>, log2: real -> real): real {
    if ps == [] then 0.0
    else ShannonSum(ps[..|ps| - 1], log2) + ps[|ps| - 1] * log2(ps[|ps| - 1])
  }

  /** The share `a / n` of `n` counted bytes. */
  function Share(a: nat, n: nat): real
    requires n > 0
  {
    a as real / n as real
  }

  lemma ShareInUnit(a: nat, n: nat)
    requires 0 < a <= n
    ensures 0.0 < Share(a, n) <= 1.0
  {
    RatioMonotone(a, n, n);
    DivSelf(n as real);
  }

  /** Appending the share of one more bin to the visited shares adds it to
      their sum. */
  lemma ShareStep(ps: seq<real>, a: nat, b: nat, n: nat)
    requires n > 0 && SumReal(ps) == Share(a, n)
    ensures SumReal(ps + [Share(b, n)]) == Share(a + b, n)
  {
    SumRealAppend(ps, [Share(b, n)]);
    assert SumReal([Share(b, n)]) == Share(b, n) by {
      assert [Share(b, n)][..0] == [];
    }
  }

  /** The bin of `v` is part of the total, and comes after the bins below. */
  lemma {:induction false} BinWithinTotal(c: multiset<Byte>, v: Byte)
    ensures CountBelow(c, v) + c[v] <= |c|
  {
    CountBelowWithin(c, v + 1);
  }

  /** Which byte values the loop over `byte_counts.values()` has visited
      once every value below `v` has been considered: exactly the occurring
      ones, in ascending order. */
  ghost predicate BinsBelow(counter: multiset<Byte>, v: int, bins: seq<Byte>) {
    && 0 <= v <= 256
    && (forall k :: 0 <= k < |bins| ==> bins[k] < v && counter[bins[k]] > 0)
    && (forall k, l :: 0 <= k < l < |bins| ==> bins[k] < bins[l])
    && (forall u: Byte :: u < v && counter[u] > 0 ==> u in bins)
  }

  /** The `p` computed for the visited bins. */
  ghost predicate SharesOf(counter: multiset<Byte>, n: nat, bins: seq<Byte>, ps: seq<real>) {
    && |bins| == |ps|
    && (forall k :: 0 <= k < |bins| ==> n > 0 && ps[k] == Share(counter[bins[k]], n))
    && (forall k :: 0 <= k < |ps| ==> 0.0 < ps[k] <= 1.0)
  }

  /** The running sums after the bins below `v`. */
  ghost predicate SumsBelow(counter: multiset<Byte>, n: nat, v: int, ps: seq<real>, acc: real, log2: real -> real)
    requires 0 <= v <= 256
  {
    && (n > 0 ==> SumReal(ps) == Share(CountBelow(counter, v), n))
    && (n == 0 ==> ps == [] && acc == 0.0)
    && acc == ShannonSum(ps, log2)
  }

  /** A byte value that does not occur is skipped. */
  lemma SkipAbsent(counter: multiset<Byte>, n: nat, v: Byte, bins: seq<Byte>,
                   ps: seq<real>, acc: real, log2: real -> real)
    requires BinsBelow(counter, v, bins) && SumsBelow(counter, n, v, ps, acc, log2)
    requires counter[v] == 0
    ensures BinsBelow(counter, v + 1, bins) && SumsBelow(counter, n, v + 1, ps, acc, log2)
  {
    assert CountBelow(counter, v + 1) == CountBelow(counter, v);
  }

  lemma VisitPresentBins(counter: multiset<Byte>, v: Byte, bins: seq<Byte>)
    requires BinsBelow(counter, v, bins) && counter[v] > 0
    ensures BinsBelow(counter, v + 1, bins + [v])
  {
  }

  lemma VisitPresentShares(counter: multiset<Byte>, n: nat, v: Byte, bins: seq<Byte>, ps: seq<real>)
    requires SharesOf(counter, n, bins, ps) && 0 < counter[v] <= n
    ensures SharesOf(counter, n, bins + [v], ps + [Share(counter[v], n)])
  {
    ShareInUnit(counter[v], n);
  }

  lemma VisitPresentSums(counter: multiset<Byte>, n: nat, v: Byte, ps: seq<real>, acc: real, log2: real -> real,
                         ps': seq<real>, acc': real)
    requires SumsBelow(counter, n, v, ps, acc, log2) && 0 < counter[v] && n > 0
    requires ps' == ps + [Share(counter[v], n)]
    requires acc' == acc + Share(counter[v], n) * log2(Share(counter[v], n))
    ensures SumsBelow(counter, n, v + 1, ps', acc', log2)
  {
    var p := Share(counter[v], n);
    ShareStep(ps, CountBelow(counter, v), counter[v], n);
    assert CountBelow(counter, v + 1) == CountBelow(counter, v) + counter[v];
    assert ps'[..|ps|] == ps;
    assert ShannonSum(ps', log2) == ShannonSum(ps, log2) + p * log2(p);
  }

  /** The loop over `byte_counts.values()`: visits the byte values present
      in `counter` in ascending order with `p = count / n` and accumulates
      `p·log2(p)`. With `n` the number of counted bytes, every visited `p`
      lies in (0, 1] and the visited `p` sum to 1. */
  method VisitBins(counter: multiset<Byte>, n: nat, log2: real -> real)
    returns (acc: real, bins: seq<Byte>, probabilities: seq<real>)
    requires |counter| == n
    ensures |bins| == |probabilities|
    ensures forall k :: 0 <= k < |probabilities| ==> 0.0 < probabilities[k] <= 1.0
    ensures forall k, l :: 0 <= k < l < |bins| ==> bins[k] < bins[l]
    ensures n == 0 ==> bins == [] && acc == 0.0
    ensures acc == ShannonSum(probabilities, log2)
    ensures n > 0 ==> SumReal(probabilities) == 1.0
    ensures forall k :: 0 <= k < |bins| ==> n > 0 && probabilities[k] == Share(counter[bins[k]], n)
    ensures forall v: Byte :: v in bins <==> counter[v] > 0
  {
    acc := 0.0;
    bins, probabilities := [], [];
    var v: int := 0;
    while v < 256
      invariant BinsBelow(counter, v, bins)
      invariant SharesOf(counter, n, bins, probabilities)
      invariant SumsBelow(counter, n, v, probabilities, acc, log2)
    {
      acc, bins, probabilities := VisitBin(counter, n, v, acc, bins, probabilities, log2);
      v := v + 1;
    }
    AllBinsVisited(counter, bins);
    if n > 0 {
      CountBelowTotal(counter);
      DivSelf(n as real);
      assert Share(CountBelow(counter, 256), n) == 1.0;
    }
  }

  /** Once all 256 values have been considered, the visited bins are
      exactly the values that occur. */
  lemma AllBinsVisited(counter: multiset<Byte>, bins: seq<Byte>)
    requires BinsBelow(counter, 256, bins)
    ensures forall v: Byte :: v in bins <==> counter[v] > 0
  {
    forall v: Byte | v in bins
      ensures counter[v] > 0
    {
      var k :| 0 <= k < |bins| && bins[k] == v;
    }
  }

  /** One step of the loop over the values: a value that occurs adds its
      `p` and its term, any other value is skipped. */
  method VisitBin(counter: multiset<Byte>, n: nat, v: Byte, acc: real, bins: seq<Byte>,
                  probabilities: seq<real>, log2: real -> real)
    returns (acc': real, bins': seq<Byte>, probabilities': seq<real>)
    requires |counter| == n
    requires BinsBelow(counter, v, bins)
    requires SharesOf(counter, n, bins, probabilities)
    requires SumsBelow(counter, n, v, probabilities, acc, log2)
    ensures BinsBelow(counter, v + 1, bins')
    ensures SharesOf(counter, n, bins', probabilities')
    ensures SumsBelow(counter, n, v + 1, probabilities', acc', log2)
  {
    if counter[v] > 0 {
      BinWithinTotal(counter, v);
      acc', bins', probabilities' := VisitPresent(counter, n, v, acc, bins, probabilities, log2);
    } else {
      SkipAbsent(counter, n, v, bins, probabilities, acc, log2);
      return acc, bins, probabilities;
    }
  }

  /** A value that occurs: its share `p` and the term `p·log2(p)` are added. */
  method VisitPresent(counter: multiset<Byte>, n: nat, v: Byte, acc: real, bins: seq<Byte>,
                      probabilities: seq<real>, log2: real -> real)
    returns (acc': real, bins': seq<Byte>, probabilities': seq<real>)
    requires 0 < counter[v] <= n
    requires BinsBelow(counter, v, bins)
    requires SharesOf(counter, n, bins, probabilities)
    requires SumsBelow(counter, n, v, probabilities, acc, log2)
    ensures BinsBelow(counter, v + 1, bins')
    ensures SharesOf(counter, n, bins', probabilities')
    ensures SumsBelow(counter, n, v + 1, probabilities', acc', log2)
  {
    VisitPresentBins(counter, v, bins);
    VisitPresentShares(counter, n, v, bins, probabilities);
    var p := Share(counter[v], n);
    acc', bins', probabilities' := acc + p * log2(p), bins + [v], probabilities + [p];
    VisitPresentSums(counter, n, v, probabilities, acc, log2, probabilities', acc');
  }

  /** `entropy_estimation`: reads the file in chunks of `bs` bytes, then
      visits the byte values that occur; the printed estimate is the negated
      sum of `p·log2(p)`. Only occurring values are visited, so the logarithm
      never sees 0; the visited `p` are the byte frequencies of the file and
      sum to exactly 1; an empty file visits nothing and yields 0 without
      dividing by zero. */
  method EntropyEstimation(file: seq<Byte>, bs: nat, log2: real -> real)
    returns (entropy: real, bins: seq<Byte>, probabilities: seq<real>)
    ensures |bins| == |probabilities|
    ensures forall k :: 0 <= k < |probabilities| ==> 0.0 < probabilities[k] <= 1.0
    ensures forall k, l :: 0 <= k < l < |bins| ==> bins[k] < bins[l]
    ensures |file| == 0 || bs == 0 ==> bins == [] && entropy == 0.0
    ensures entropy == -ShannonSum(probabilities, log2)
    ensures bs > 0 && |file| > 0 ==> SumReal(probabilities) == 1.0
    ensures bs > 0 && |file| > 0 ==> forall k :: 0 <= k < |bins| ==>
              probabilities[k] == multiset(file)[bins[k]] as real / |file| as real
    ensures bs > 0 ==> forall v: Byte :: v in bins <==> v in multiset(file)
  {
    var counter, n := CountChunks(file, bs);
    var acc;
    acc, bins, probabilities := VisitBins(counter, n, log2);
    entropy := -acc;
  }
}
