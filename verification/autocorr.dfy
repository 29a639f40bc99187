/** `autocorr_test.py`: the image is scanned in blocks of 512 bytes; for
    each block the autocorrelation of its mean-centred byte values is taken
    at lags 0..49, and a block whose mean absolute coefficient (lag 0
    excluded) is below a threshold is flagged as possibly encrypted. The
    correlation coefficient `np.corrcoef(a, b)[0, 1]` is a parameter `corr`
    that may return NaN; the threshold is a parameter as well. */
module Autocorr {
  import opened Common
  import opened Streams

  /** `DiskImageAnalyzer()` reads blocks of this size. */
  const DefaultBlockSize: nat := 512
  /** The default `max_lag` of `calculate_autocorrelation`. */
  const DefaultMaxLag: int := 50
  /** The default `threshold` of `analyze_block`. */
  const DefaultThreshold: real := 0.1
  /** The `num_blocks` `analyze_image_file` asks for. */
  const FileBlocks: nat := 5000

  /** `read_image_block` on an image that exists: `seek(offset)` and
      `read(block_size)`; an empty read raises `EOFError`, which the
      handler for `IOError`/`OSError` does not catch. */
  function ReadImageBlock(image: seq<Byte>, offset: nat, blockSize: nat): (r: Result<seq<Byte>>)
    ensures r.Failure? <==> offset >= |image| || blockSize == 0
    ensures r.Failure? ==> r.error == EOFError
    ensures r.Success? ==> 0 < |r.value| <= blockSize
    ensures r.Success? ==> r.value == image[offset .. Min(offset + blockSize, |image|)]
  {
    var data := Read(image, offset, blockSize);
    if data == [] then Failure(EOFError) else Success(data)
  }

  /** `np.mean` of a non-empty array. */
  function Mean(xs: seq<real>): real
    requires |xs| > 0
  {
    SumReal(xs) / |xs| as real
  }

  function AsReals(data: seq<Byte>): (xs: seq<real>)
    ensures |xs| == |data|
  {
    seq(|data|, i requires 0 <= i < |data| => data[i] as real)
  }

  /** Every value minus `c`. */
  function Shift(xs: seq<real>, c: real): (ys: seq<real>)
    ensures |ys| == |xs|
  {
    seq(|xs|, i requires 0 <= i < |xs| => xs[i] - c)
  }

  /** `values - np.mean(values)` (the empty block stays empty). */
  function Centered(data: seq<Byte>): (values: seq<real>)
    ensures |values| == |data|
  {
    if data == [] then [] else Shift(AsReals(data), Mean(AsReals(data)))
  }

  lemma {:induction false} SumShift(xs: seq<real>, c: real)
    ensures SumReal(Shift(xs, c)) == SumReal(xs) - |xs| as real * c
  {
    if xs != [] {
      var init := xs[..|xs| - 1];
      SumShift(init, c);
      assert Shift(xs, c)[..|xs| - 1] == Shift(init, c);
    }
  }

  /** The centred values of a non-empty block sum to zero. */
  lemma CenteredSumsToZero(data: seq<Byte>)
    requires |data| > 0
    ensures SumReal(Centered(data)) == 0.0
  {
    var xs := AsReals(data);
    SumShift(xs, Mean(xs));
    var n := |xs| as real;
    assert n * (SumReal(xs) / n) == SumReal(xs);
  }

  /** How many coefficients are computed: lags `0 .. max_lag - 1`, stopping
      at the first lag that leaves fewer than two values. */
  function LagCount(length: nat, maxLag: int): nat {
    Min(Max(maxLag, 0), Max(0, length - 1))
  }

  /** The coefficient at lag `k` compares `values[k:]` with
      `values[:len - k]`, two slices of equal length. */
  function Coefficients(data: seq<Byte>, maxLag: int, corr: (seq<real>, seq<real>) -> Float): (cs: seq<Float>)
    ensures |cs| == LagCount(|data|, maxLag)
  {
    var values := Centered(data);
    seq(LagCount(|data|, maxLag), k requires 0 <= k < LagCount(|data|, maxLag) =>
      corr(values[k..], values[..|values| - k]))
  }

  /** `calculate_autocorrelation`: the loop over lags with its early
      `break`. It computes `min(max_lag, len - 1)` coefficients (none for a
      non-positive `max_lag` or a block of one byte), each over two slices
      of `len - k` centred values. */
  method CalculateAutocorrelation(data: seq<Byte>, maxLag: int, corr: (seq<real>, seq<real>) -> Float)
    returns (autocorr: seq<Float>)
    ensures |autocorr| == LagCount(|data|, maxLag)
    ensures forall k :: 0 <= k < |autocorr| ==>
              && |Centered(data)[k..]| == |Centered(data)[..|data| - k]| == |data| - k >= 2
              && autocorr[k] == corr(Centered(data)[k..], Centered(data)[..|data| - k])
    ensures autocorr == Coefficients(data, maxLag, corr)
  {
    var values := Centered(data);
    autocorr := [];
    var lag := 0;
    while lag < maxLag
      invariant 0 <= lag <= Max(maxLag, 0)
      invariant lag <= Max(0, |values| - 1)
      invariant |autocorr| == lag
      invariant forall k :: 0 <= k < lag ==>
                  |values| - k >= 2 && autocorr[k] == corr(values[k..], values[..|values| - k])
    {
      if |values| - lag < 2 {
        break;
      }
      autocorr := autocorr + [corr(values[lag..], values[..|values| - lag])];
      lag := lag + 1;
    }
  }

  /** `np.mean(np.abs(xs))`: NaN for an empty array or when any entry is
      NaN. */
  function MeanAbs(xs: seq<Float>): (m: Float)
    ensures m.Num? <==> xs != [] && forall i :: 0 <= i < |xs| ==> xs[i].Num?
    ensures m.Num? ==> m.value >= 0.0
  {
    if xs == [] || exists i :: 0 <= i < |xs| && xs[i].NaN? then NaN
    else
      var abs := seq(|xs|, i requires 0 <= i < |xs| => AbsReal(xs[i].value));
      MeanNonNegative(abs);
      Num(Mean(abs))
  }

  lemma {:induction false} SumNonNegative(xs: seq<real>)
    requires forall i :: 0 <= i < |xs| ==> xs[i] >= 0.0
    ensures SumReal(xs) >= 0.0
  {
    if xs != [] {
      SumNonNegative(xs[..|xs| - 1]);
    }
  }

  lemma MeanNonNegative(xs: seq<real>)
    requires |xs| > 0
    requires forall i :: 0 <= i < |xs| ==> xs[i] >= 0.0
    ensures Mean(xs) >= 0.0
  {
    SumNonNegative(xs);
    var s, n := SumReal(xs), |xs| as real;
    assert s / n >= 0.0;
  }

  /** `analyze_block` as a function of the block: `(0.0, False)` for an
      empty block or an empty coefficient list; otherwise the mean absolute
      coefficient over lags 1.. and whether it is below the threshold. */
  function BlockVerdict(data: seq<Byte>, threshold: real, corr: (seq<real>, seq<real>) -> Float): (Float, bool) {
    if data == [] then (Num(0.0), false)
    else
      var cs := Coefficients(data, DefaultMaxLag, corr);
      if cs == [] then (Num(0.0), false)
      else
        var m := MeanAbs(cs[1..]);
        (m, Below(m, threshold))
  }

  /** `analyze_block`. A one-byte block has no coefficient and gives
      `(0.0, False)`; a two-byte block has only the lag-0 coefficient, so the
      mean over lags 1.. is the NaN of an empty mean and the block is not
      flagged. A flagged block has a defined mean in [0, threshold). */
  method AnalyzeBlock(data: seq<Byte>, threshold: real, corr: (seq<real>, seq<real>) -> Float)
    returns (meanAutocorr: Float, isEncrypted: bool)
    ensures (meanAutocorr, isEncrypted) == BlockVerdict(data, threshold, corr)
    ensures |data| <= 1 ==> meanAutocorr == Num(0.0) && !isEncrypted
    ensures |data| == 2 ==> meanAutocorr == NaN && !isEncrypted
    ensures |data| > 2 ==>
              meanAutocorr == MeanAbs(Coefficients(data, DefaultMaxLag, corr)[1..])
    ensures isEncrypted <==> meanAutocorr.Num? && meanAutocorr.value < threshold && |data| > 2
    ensures meanAutocorr.Num? ==> meanAutocorr.value >= 0.0
  {
    if data == [] {
      return Num(0.0), false;
    }
    var autocorr := CalculateAutocorrelation(data, DefaultMaxLag, corr);
    if autocorr == [] {
      return Num(0.0), false;
    }
    meanAutocorr := MeanAbs(autocorr[1..]);
    isEncrypted := Below(meanAutocorr, threshold);
  }

  /** One entry `(offset, mean_autocorr, is_encrypted)` of a region scan. */
  datatype BlockResult = BlockResult(offset: nat, meanAutocorr: real, encrypted: bool)

  /** The offset of block `i` of a region. */
  function BlockOffset(start: nat, i: nat, blockSize: nat): nat {
    start + i * blockSize
  }

  /** The analysis applied to each block: `analyze_block` with the given
      threshold and coefficient function. */
  function Analyzer(threshold: real, corr: (seq<real>, seq<real>) -> Float): seq<Byte> -> (Float, bool) {
    data => BlockVerdict(data, threshold, corr)
  }

  /** The entries for the first `count` blocks of a region, all of whose
      reads are non-empty, under the block analysis `analyze`: a block whose
      mean is NaN is left out. */
  function RegionEntries(image: seq<Byte>, start: nat, blockSize: nat, count: nat,
                         analyze: seq<Byte> -> (Float, bool)): seq<BlockResult>
  {
    if count == 0 then []
    else
      var offset := BlockOffset(start, count - 1, blockSize);
      var v := analyze(Read(image, offset, blockSize));
      RegionEntries(image, start, blockSize, count - 1, analyze)
        + (if v.0.Num? then [BlockResult(offset, v.0.value, v.1)] else [])
  }

  /** The entries `analyze_image_region` collects for `count` blocks. */
  function RegionResults(image: seq<Byte>, start: nat, blockSize: nat, count: nat,
                         threshold: real, corr: (seq<real>, seq<real>) -> Float): seq<BlockResult>
  {
    RegionEntries(image, start, blockSize, count, Analyzer(threshold, corr))
  }

  /** A region scan never has more entries than blocks, keeps them in
      increasing offset order, and every entry is a block of the region that
      starts inside the image, with a non-negative mean. */
  lemma RegionResultsShape(image: seq<Byte>, start: nat, blockSize: nat, count: nat,
                           threshold: real, corr: (seq<real>, seq<real>) -> Float)
    requires blockSize > 0
    requires count == 0 || BlockOffset(start, count - 1, blockSize) < |image|
    ensures var rs := RegionResults(image, start, blockSize, count, threshold, corr);
            && |rs| <= count
            && (forall k :: 0 <= k < |rs| ==>
                  && rs[k].offset < |image|
                  && exists i :: 0 <= i < count && rs[k].offset == BlockOffset(start, i, blockSize))
            && (forall k, l :: 0 <= k < l < |rs| ==> rs[k].offset < rs[l].offset)
            && (forall k :: 0 <= k < |rs| ==> rs[k].meanAutocorr >= 0.0)
  {
    var analyze := Analyzer(threshold, corr);
    RegionLength(image, start, blockSize, count, analyze);
    RegionOffsets(image, start, blockSize, count, analyze);
    RegionSorted(image, start, blockSize, count, analyze);
    forall data
      ensures analyze(data).0.Num? ==> analyze(data).0.value >= 0.0
    {
      BlockVerdictNonNegative(data, threshold, corr);
    }
    RegionMeansNonNegative(image, start, blockSize, count, analyze);
  }

  /** The entries of `count` blocks: those of the first `count - 1`, then
      at most one for the last block. */
  lemma RegionEntriesStep(image: seq<Byte>, start: nat, blockSize: nat, count: nat,
                          analyze: seq<Byte> -> (Float, bool))
    requires count > 0
    ensures var offset := BlockOffset(start, count - 1, blockSize);
            var v := analyze(Read(image, offset, blockSize));
            var prev := RegionEntries(image, start, blockSize, count - 1, analyze);
            var rs := RegionEntries(image, start, blockSize, count, analyze);
            && (v.0.NaN? ==> rs == prev)
            && (v.0.Num? ==> |rs| == |prev| + 1 && rs[|prev|] == BlockResult(offset, v.0.value, v.1))
            && forall k :: 0 <= k < |prev| ==> rs[k] == prev[k]
  {
  }

  lemma {:induction false} RegionLength(image: seq<Byte>, start: nat, blockSize: nat, count: nat,
                                        analyze: seq<Byte> -> (Float, bool))
    ensures |RegionEntries(image, start, blockSize, count, analyze)| <= count
  {
    if count > 0 {
      RegionLength(image, start, blockSize, count - 1, analyze);
      RegionEntriesStep(image, start, blockSize, count, analyze);
    }
  }

  /** Every entry is one of the first `count` blocks, at or before the last
      one. */
  lemma {:induction false} RegionOffsets(image: seq<Byte>, start: nat, blockSize: nat, count: nat,
                                         analyze: seq<Byte> -> (Float, bool))
    requires blockSize > 0
    ensures var rs := RegionEntries(image, start, blockSize, count, analyze);
            forall k :: 0 <= k < |rs| ==>
              && count > 0
              && rs[k].offset <= BlockOffset(start, count - 1, blockSize)
              && exists i :: 0 <= i < count && rs[k].offset == BlockOffset(start, i, blockSize)
  {
    if count > 0 {
      RegionEntriesStep(image, start, blockSize, count, analyze);
      var prev := RegionEntries(image, start, blockSize, count - 1, analyze);
      var rs := RegionEntries(image, start, blockSize, count, analyze);
      RegionOffsets(image, start, blockSize, count - 1, analyze);
      if count > 1 {
        OffsetsIncrease(start, count - 2, blockSize);
      }
      forall k | 0 <= k < |rs|
        ensures rs[k].offset <= BlockOffset(start, count - 1, blockSize)
        ensures exists i :: 0 <= i < count && rs[k].offset == BlockOffset(start, i, blockSize)
      {
        if k < |prev| {
          assert rs[k] == prev[k];
        } else {
          assert rs[k].offset == BlockOffset(start, count - 1, blockSize);
        }
      }
    }
  }

  /** Entries come in strictly increasing offset order. */
  lemma {:induction false} RegionSorted(image: seq<Byte>, start: nat, blockSize: nat, count: nat,
                                        analyze: seq<Byte> -> (Float, bool))
    requires blockSize > 0
    ensures var rs := RegionEntries(image, start, blockSize, count, analyze);
            forall k, l :: 0 <= k < l < |rs| ==> rs[k].offset < rs[l].offset
  {
    if count > 0 {
      RegionEntriesStep(image, start, blockSize, count, analyze);
      var prev := RegionEntries(image, start, blockSize, count - 1, analyze);
      var rs := RegionEntries(image, start, blockSize, count, analyze);
      var last := BlockOffset(start, count - 1, blockSize);
      RegionSorted(image, start, blockSize, count - 1, analyze);
      RegionOffsets(image, start, blockSize, count - 1, analyze);
      assert forall k :: 0 <= k < |prev| ==> prev[k].offset < last by {
        if count > 1 {
          LastOffsetsIncrease(start, count, blockSize);
        }
      }
      forall k, l | 0 <= k < l < |rs|
        ensures rs[k].offset < rs[l].offset
      {
        assert rs[k] == prev[k];
        if l < |prev| {
          assert rs[l] == prev[l];
        } else {
          assert rs[l].offset == last;
        }
      }
    }
  }

  lemma LastOffsetsIncrease(start: nat, count: nat, blockSize: nat)
    requires count >= 2 && blockSize > 0
    ensures BlockOffset(start, count - 2, blockSize) < BlockOffset(start, count - 1, blockSize)
  {
    var i := count - 2;
    assert (i + 1) * blockSize == i * blockSize + blockSize;
  }

  /** When the analysis never yields a negative mean, neither does any
      entry. */
  lemma {:induction false} RegionMeansNonNegative(image: seq<Byte>, start: nat, blockSize: nat, count: nat,
                                                  analyze: seq<Byte> -> (Float, bool))
    requires forall data :: analyze(data).0.Num? ==> analyze(data).0.value >= 0.0
    ensures var rs := RegionEntries(image, start, blockSize, count, analyze);
            forall k :: 0 <= k < |rs| ==> rs[k].meanAutocorr >= 0.0
  {
    if count > 0 {
      RegionEntriesStep(image, start, blockSize, count, analyze);
      var prev := RegionEntries(image, start, blockSize, count - 1, analyze);
      var rs := RegionEntries(image, start, blockSize, count, analyze);
      RegionMeansNonNegative(image, start, blockSize, count - 1, analyze);
      forall k | 0 <= k < |rs|
        ensures rs[k].meanAutocorr >= 0.0
      {
        if k < |prev| {
          assert rs[k] == prev[k];
        }
      }
    }
  }

  lemma OffsetsIncrease(start: nat, i: nat, blockSize: nat)
    requires blockSize > 0
    ensures BlockOffset(start, i, blockSize) < BlockOffset(start, i + 1, blockSize)
  {
  }

  lemma BlockVerdictNonNegative(data: seq<Byte>, threshold: real, corr: (seq<real>, seq<real>) -> Float)
    ensures BlockVerdict(data, threshold, corr).0.Num? ==> BlockVerdict(data, threshold, corr).0.value >= 0.0
  {
  }

  /** `analyze_image_region`: reads `num_blocks` consecutive blocks from
      `start_offset`. The first read at or past the end of the image raises
      `EOFError`, which escapes the whole scan; otherwise the result lists,
      in offset order, every block whose mean is not NaN. */
  method AnalyzeImageRegion(image: seq<Byte>, start: nat, numBlocks: int, blockSize: nat,
                            threshold: real, corr: (seq<real>, seq<real>) -> Float)
    returns (r: Result<seq<BlockResult>>)
    ensures r.Failure? ==> r.error == EOFError
    ensures r.Failure? <==>
              numBlocks > 0 && (blockSize == 0 || BlockOffset(start, numBlocks - 1, blockSize) >= |image|)
    ensures r.Success? ==> r.value == RegionResults(image, start, blockSize, Max(numBlocks, 0), threshold, corr)
  {
    var n: nat := Max(numBlocks, 0);
    var results: seq<BlockResult> := [];
    var i: nat := 0;
    while i < n
      invariant i <= n
      invariant i > 0 ==> blockSize > 0 && BlockOffset(start, i - 1, blockSize) < |image|
      invariant results == RegionResults(image, start, blockSize, i, threshold, corr)
    {
      var entry := ScanBlock(image, BlockOffset(start, i, blockSize), blockSize, threshold, corr);
      if entry.Failure? {
        LaterOffsetsPastEnd(image, start, i, n - 1, blockSize);
        return Failure(entry.error);
      }
      RegionResultsStep(image, start, blockSize, i, threshold, corr);
      results := results + entry.value;
      i := i + 1;
    }
    return Success(results);
  }

  /** The body of the scan loop for the block at `offset`: the read, which
      may raise `EOFError`, then `analyze_block`; the entry is kept only
      when its mean is not NaN. */
  method ScanBlock(image: seq<Byte>, offset: nat, blockSize: nat,
                   threshold: real, corr: (seq<real>, seq<real>) -> Float)
    returns (r: Result<seq<BlockResult>>)
    ensures r.Failure? <==> offset >= |image| || blockSize == 0
    ensures r.Failure? ==> r.error == EOFError
    ensures r.Success? ==>
              var v := BlockVerdict(Read(image, offset, blockSize), threshold, corr);
              r.value == if v.0.Num? then [BlockResult(offset, v.0.value, v.1)] else []
  {
    var data := ReadImageBlock(image, offset, blockSize);
    if data.Failure? {
      return Failure(data.error);
    }
    var meanAutocorr, isEncrypted := AnalyzeBlock(data.value, threshold, corr);
    if meanAutocorr.Num? {
      return Success([BlockResult(offset, meanAutocorr.value, isEncrypted)]);
    }
    return Success([]);
  }

  /** One more block appends at most its own entry. */
  lemma RegionResultsStep(image: seq<Byte>, start: nat, blockSize: nat, i: nat,
                          threshold: real, corr: (seq<real>, seq<real>) -> Float)
    ensures var offset := BlockOffset(start, i, blockSize);
            var v := BlockVerdict(Read(image, offset, blockSize), threshold, corr);
            RegionResults(image, start, blockSize, i + 1, threshold, corr)
              == RegionResults(image, start, blockSize, i, threshold, corr)
                   + (if v.0.Num? then [BlockResult(offset, v.0.value, v.1)] else [])
  {
  }

  /** Once a read is past the end, so are all later ones. */
  lemma LaterOffsetsPastEnd(image: seq<Byte>, start: nat, i: nat, j: nat, blockSize: nat)
    requires i <= j
    requires BlockOffset(start, i, blockSize) >= |image| || blockSize == 0
    ensures BlockOffset(start, j, blockSize) >= |image| || blockSize == 0
  {
    if blockSize > 0 {
      MulMonotone(i, j, blockSize);
    }
  }

  lemma MulMonotone(i: nat, j: nat, m: nat)
    requires i <= j
    ensures i * m <= j * m
  {
  }

  /** The list `autocorr_stat`: the mean of every kept block, in order. */
  function MeansOf(rs: seq<BlockResult>): (ms: seq<real>)
    ensures |ms| == |rs|
    ensures forall k :: 0 <= k < |rs| ==> ms[k] == rs[k].meanAutocorr
  {
    seq(|rs|, k requires 0 <= k < |rs| => rs[k].meanAutocorr)
  }

  /** `analyze_image_file`: scans 5000 blocks of 512 bytes from offset 0
      with threshold 0.1; an image that yields no entry raises
      `ValueError`, otherwise the result is the mean of the block means. */
  method AnalyzeImageFile(image: seq<Byte>, corr: (seq<real>, seq<real>) -> Float) returns (r: Result<real>)
    ensures |image| <= BlockOffset(0, FileBlocks - 1, DefaultBlockSize) ==> r == Failure(EOFError)
    ensures |image| > BlockOffset(0, FileBlocks - 1, DefaultBlockSize) ==>
              var rs := RegionResults(image, 0, DefaultBlockSize, FileBlocks, DefaultThreshold, corr);
              && (rs == [] <==> r == Failure(ValueError))
              && (rs != [] <==> r.Success?)
    ensures r.Success? ==>
              var ms := MeansOf(RegionResults(image, 0, DefaultBlockSize, FileBlocks, DefaultThreshold, corr));
              && |ms| > 0
              && r.value == SumReal(ms) / |ms| as real
              && r.value >= 0.0
  {
    var results :- AnalyzeImageRegion(image, 0, FileBlocks, DefaultBlockSize, DefaultThreshold, corr);
    RegionResultsShape(image, 0, DefaultBlockSize, FileBlocks, DefaultThreshold, corr);
    var autocorrStat := MeansOf(results);
    if autocorrStat == [] {
      return Failure(ValueError);
    }
    MeanNonNegative(autocorrStat);
    return Success(Mean(autocorrStat));
  }
}
