/** The streaming byte histogram and the empirical distribution function of
    `ks_plot.py`. A Python `Counter` of bytes is a multiset of byte values:
    `Counter(chunk)` is `multiset(chunk)` and `counter += Counter(chunk)` is
    multiset union. */
module Histogram {
  import opened Common
  import opened Streams

  /** Number of bytes in `c` whose value is below `k`: the running `cumsum`
      after `k` bins. */
  function CountBelow(c: multiset<Byte>, k: nat): nat
    requires k <= 256
  {
    if k == 0 then 0 else CountBelow(c, k - 1) + c[k - 1]
  }

  /** The per-chunk counters folded together, as the read loop does. */
  function Tally(chunks: seq<seq<Byte>>): multiset<Byte> {
    if chunks == [] then multiset{} else multiset(chunks[0]) + Tally(chunks[1..])
  }

  /** Chunking independence: however the file is cut into chunks, the summed
      counters are the histogram of the whole file. */
  lemma {:induction false} TallyIsHistogram(chunks: seq<seq<Byte>>)
    ensures Tally(chunks) == multiset(Flatten(chunks))
  {
    if chunks != [] {
      TallyIsHistogram(chunks[1..]);
      assert Flatten(chunks) == chunks[0] + Flatten(chunks[1..]);
    }
  }

  /** Whatever positive read size is used, the read loop counts every byte of
      the file exactly once. */
  lemma ChunkSizeIrrelevant(file: seq<Byte>, bs1: nat, bs2: nat)
    requires bs1 > 0 && bs2 > 0
    ensures Tally(Chunks(file, bs1)) == Tally(Chunks(file, bs2)) == multiset(file)
  {
    TallyIsHistogram(Chunks(file, bs1));
    TallyIsHistogram(Chunks(file, bs2));
  }

  lemma {:induction false} CountBelowAdd(c: multiset<Byte>, x: Byte, k: nat)
    requires k <= 256
    ensures CountBelow(c + multiset{x}, k) == CountBelow(c, k) + (if x < k then 1 else 0)
  {
    if k > 0 {
      CountBelowAdd(c, x, k - 1);
    }
  }

  lemma {:induction false} CountBelowEmpty(k: nat)
    requires k <= 256
    ensures CountBelow(multiset{}, k) == 0
  {
    if k > 0 {
      CountBelowEmpty(k - 1);
    }
  }

  /** The 256 bins together hold every counted byte: `sum(counts) == n`. */
  lemma {:induction false} CountBelowTotal(c: multiset<Byte>)
    ensures CountBelow(c, 256) == |c|
    decreases |c|
  {
    if c == multiset{} {
      CountBelowEmpty(256);
    } else {
      var x :| x in c;
      var d := c - multiset{x};
      assert d + multiset{x} == c;
      CountBelowTotal(d);
      CountBelowAdd(d, x, 256);
    }
  }

  lemma {:induction false} CountBelowMonotone(c: multiset<Byte>, j: nat, k: nat)
    requires j <= k <= 256
    ensures CountBelow(c, j) <= CountBelow(c, k)
    decreases k - j
  {
    if j < k {
      CountBelowMonotone(c, j, k - 1);
    }
  }

  /** The bins below `k` hold at most every counted byte. */
  lemma CountBelowWithin(c: multiset<Byte>, k: nat)
    requires k <= 256
    ensures CountBelow(c, k) <= |c|
  {
    CountBelowMonotone(c, k, 256);
    CountBelowTotal(c);
  }

  /** Counting a chunk read at `pos` extends the count of the prefix read
      so far. */
  lemma PrefixGrows(file: seq<Byte>, pos: nat, chunk: seq<Byte>, counter: multiset<Byte>)
    requires pos + |chunk| <= |file| && chunk == file[pos .. pos + |chunk|]
    requires counter == multiset(file[..pos])
    ensures counter + multiset(chunk) == multiset(file[..pos + |chunk|])
  {
    assert file[..pos] + chunk == file[..pos + |chunk|];
  }

  /** The loops of `plot_file_cdf`: read `bs` bytes at a time until an empty
      read, adding each chunk's length to `n` and its counter to the running
      counter. With `bs == 0` the first read is already empty. */
  method CountChunks(file: seq<Byte>, bs: nat) returns (counter: multiset<Byte>, n: nat)
    ensures bs > 0 ==> counter == multiset(file) && n == |file|
    ensures bs == 0 ==> counter == multiset{} && n == 0
    ensures |counter| == n
  {
    counter := multiset{};
    n := 0;
    var pos: nat := 0;
    while true
      invariant pos <= |file|
      invariant bs == 0 ==> pos == 0
      invariant n == pos
      invariant counter == multiset(file[..pos])
      decreases |file| - pos
    {
      var chunk := Read(file, pos, bs);
      if chunk == [] {
        assert bs > 0 ==> file[..pos] == file;
        break;
      }
      PrefixGrows(file, pos, chunk, counter);
      n := n + |chunk|;
      counter := counter + multiset(chunk);
      pos := pos + |chunk|;
    }
  }

  /** Entry `i` of the empirical distribution: the share of bytes at most `i`. */
  function CdfEntry(c: multiset<Byte>, n: nat, i: nat): real
    requires n > 0 && i < 256
  {
    CountBelow(c, i + 1) as real / n as real
  }

  predicate IsDistribution(cdf: seq<real>) {
    && |cdf| == 256
    && (forall i :: 0 <= i < 256 ==> 0.0 <= cdf[i] <= 1.0)
    && (forall i, j :: 0 <= i <= j < 256 ==> cdf[i] <= cdf[j])
    && cdf[255] == 1.0
  }

  /** `calculate_emp_cdf`: a running sum over the 256 bins divided by `n`.
      The first division already fails when `n` is 0. When `n` is the number
      of counted bytes the result is a distribution function: within [0, 1],
      non-decreasing and ending at 1. */
  method EmpiricalCdf(counter: multiset<Byte>, n: nat) returns (r: Result<seq<real>>)
    ensures r.Failure? <==> n == 0
    ensures r.Failure? ==> r.error == ZeroDivisionError
    ensures r.Success? ==> |r.value| == 256
    ensures r.Success? ==> forall i :: 0 <= i < 256 ==> r.value[i] == CdfEntry(counter, n, i)
    ensures r.Success? && n == |counter| ==> IsDistribution(r.value)
  {
    if n == 0 {
      return Failure(ZeroDivisionError);
    }
    var cdf: seq<real> := seq(256, _ => 0.0);
    var cumsum: nat := 0;
    var i := 0;
    while i < 256
      invariant 0 <= i <= 256
      invariant |cdf| == 256
      invariant cumsum == CountBelow(counter, i)
      invariant forall j :: 0 <= j < i ==> cdf[j] == CdfEntry(counter, n, j)
    {
      cumsum := cumsum + counter[i];
      assert cumsum == CountBelow(counter, i + 1);
      cdf := cdf[i := cumsum as real / n as real];
      i := i + 1;
    }
    if n == |counter| {
      assert cdf == CdfOf(counter);
      CdfIsDistribution(counter);
    }
    return Success(cdf);
  }

  /** The empirical distribution of a non-empty counter, as a sequence. */
  function CdfOf(c: multiset<Byte>): seq<real>
    requires |c| > 0
  {
    seq(256, i requires 0 <= i < 256 => CdfEntry(c, |c|, i))
  }

  lemma CdfIsDistribution(c: multiset<Byte>)
    requires |c| > 0
    ensures IsDistribution(CdfOf(c))
  {
    var cdf := CdfOf(c);
    CountBelowTotal(c);
    forall i | 0 <= i < 256
      ensures 0.0 <= cdf[i] <= 1.0
    {
      CountBelowWithin(c, i + 1);
      RatioMonotone(CountBelow(c, i + 1), |c|, |c|);
    }
    forall i, j | 0 <= i <= j < 256
      ensures cdf[i] <= cdf[j]
    {
      CountBelowMonotone(c, i + 1, j + 1);
      RatioMonotone(CountBelow(c, i + 1), CountBelow(c, j + 1), |c|);
    }
    var total := |c| as real;
    assert cdf[255] == total / total;
    DivSelf(total);
  }

  lemma RatioMonotone(a: nat, b: nat, n: nat)
    requires a <= b && n > 0
    ensures 0.0 <= a as real / n as real <= b as real / n as real
  {
  }

  /** `np.linspace(start, stop, num)`: `num` evenly spaced values from
      `start` to `stop` inclusive. */
  function Linspace(start: real, stop: real, num: nat): seq<real>
    requires num >= 2
  {
    seq(num, i requires 0 <= i < num => start + i as real * ((stop - start) / (num - 1) as real))
  }

  /** The uniform reference distribution `linspace(1/256, 1, 256)`: entry `i`
      is the probability that a uniform byte is at most `i`. */
  function TheoreticalCdf(): (r: seq<real>)
    ensures |r| == 256
    ensures forall i :: 0 <= i < 256 ==> r[i] == (i + 1) as real / 256.0
  {
    Linspace(1.0 / 256.0, 1.0, 256)
  }
}
