# Disk-image randomness checks: a verified model

The repository is a set of prototype scripts that judge whether a disk image
"looks encrypted". They do this by asking whether its bytes are statistically
indistinguishable from random. This project models their computational core
in Dafny and proves properties of that model. The modelled scripts are:

- **Streaming byte histogram** (`ks_plot.py`, `primary_analysis.py`). A file
  is read in `bs`-sized chunks into a `Counter`, with a running byte total.
  From the counts come the empirical CDF and the Shannon entropy weights.
  The model treats a file as a byte sequence and a `Counter` as a
  `multiset<Byte>`.
- **Pearson chi-square and Kolmogorov–Smirnov statistics** over the
  histogram, with their input validation and fixed-threshold interpretations
  (`pearson_criterion.py`, `kolmogorov_test.py`). Both are ratios of integers,
  so they are stated exactly over `real`.
- **Literal byte-signature search** (`signature_analysis.py`). `re.finditer`
  over an escaped literal is a leftmost, non-overlapping scan. Its per-chunk
  match counts are summed over a 22-entry table of file-format magic numbers.
- **Bit-string conversion and the NIST SP 800-22 vote** (`nist_sts.py`,
  `contextual_analysis.py`). Data becomes `bin(int.from_bytes(data,
  byteorder))[2:]`. The modelled logic is:
  - the majority vote over the library's verdicts;
  - the monobit count of section 2.1 of NIST SP 800-22;
  - the block partitioning and chi-square statistic of the Frequency Test
    within a Block (section 2.2 of NIST SP 800-22).
- **Autocorrelation block scan** (`autocorr_test.py`):
  - which slices are correlated at each lag;
  - the decision rule per block;
  - the walk over the block offsets of an image.

Numerics the scripts take from foreign libraries are parameters of the model:
- `np.corrcoef`;
- `log2`;
- the p-value functions `erfc` and `gammaincc`;
- the whole `randomness_testsuite` battery.

Byte order (`sys.byteorder`) is a parameter too. Python exceptions are
`Result` failures carrying the exception class (`ValueError`,
`ZeroDivisionError`, `TypeError`, `IndexError`, `EOFError`). A NumPy `nan` is
the `NaN` case of `Common.Float`.

Modules, one per file: `Common`, `Streams` (file reads as slices), `Histogram`,
`Entropy`, `Pearson`, `Kolmogorov`, `Signatures`, `Bits`, `Nist`,
`Contextual`, `Autocorr`.

Some behaviours are modelled exactly as written, because other code or
results depend on them:
- **Excursion verdicts.** Both excursion folds in `nist_tests` start from
  `False` and combine with `and`, so both are always `False`
  (`Nist.FoldAnd`). A majority therefore needs 8 of the 13 library
  verdicts (`Nist.VoteNeedsEightOfThirteen`).
- **Non-overlapping, per-chunk signature search.** `re.finditer` does not
  report overlapping matches, and each 256 MiB chunk is searched on its own.
  So a match that crosses a chunk boundary is never counted
  (`Signatures.BoundaryOccurrenceMissed`). What is counted is exactly the
  occurrences that lie wholly inside one chunk
  (`Signatures.CountsOccurrencesInsideChunks`).
- **Autocorrelation lags.** `calculate_autocorrelation` also computes lag 0,
  and `analyze_block` leaves it out of the mean. A single `nan` coefficient
  makes the whole block's mean `nan`, and that block is then dropped.
- **`EOFError` escapes.** `read_image_block` catches only `IOError`/`OSError`.
  The `EOFError` it raises at the end of the file escapes `analyze_image_region`.
  So `analyze_image_file`, which scans 5000 blocks of 512 bytes, raises
  `EOFError` for every image of at most 2,559,488 bytes
  (`Autocorr.AnalyzeImageFile`).
- **Empty input to the KS statistic.** `calculate_kolmogorov_smirnov` divides
  by the sample size, so an empty sample raises `ZeroDivisionError`.
- **Return type.** `perform_signature_analysis` is annotated `-> bool` but
  returns the count mapping. The model returns the mapping.

## Model

| member | source | states |
|---|---|---|
| Common.ToByteList | pearson_criterion.py:18-25 | A `bytes` argument passes through unchanged. A list passes with the same elements. The call fails with `ValueError` exactly when some list element lies outside 0..255. |
| Streams.Read | autocorr_test.py:44-45 | `seek(pos); read(bs)` yields the file's bytes from `pos`: exactly `bs` of them when that many remain, the rest of the file otherwise, and nothing at or past the end or when `bs` is 0. |
| Streams.Chunks | ks_plot.py:18-22 | The chunks a read loop sees concatenate back to the whole file when `bs > 0`. Each chunk is non-empty and at most `bs` long, and all but the last are exactly `bs` long. With `bs == 0` the loop sees nothing. |
| Histogram.TallyIsHistogram | ks_plot.py:24 | Summing the per-chunk `Counter`s gives the histogram of the concatenated chunks. |
| Histogram.ChunkSizeIrrelevant | primary_analysis.py:26-34 | For any two positive chunk sizes the accumulated counters are equal, and both are the histogram of the whole file. |
| Histogram.CountChunks | ks_plot.py:18-25 | After the loop, the counter is the histogram of the whole file and `n` is the file length. The counter's total always equals `n`, which is the loop invariant. With `bs == 0` both are empty. |
| Histogram.CountBelowTotal | primary_analysis.py:32-34 | Summing the 256 bins of a counter gives the number of bytes counted. |
| Histogram.CountBelowMonotone | ks_plot.py:56-57 | The running sum over the bins never decreases. |
| Histogram.EmpiricalCdf | ks_plot.py:53-59 | Fails with `ZeroDivisionError` exactly when `n == 0`. Otherwise entry `i` is the count of values `<= i` divided by `n`. When `n` is the counter's total, the result lies in [0,1], is non-decreasing and ends at 1. |
| Histogram.CdfIsDistribution | kolmogorov_test.py:38-42 | The empirical CDF of a non-empty sample is a distribution function: within [0,1], non-decreasing, last entry 1. |
| Histogram.TheoreticalCdf | ks_plot.py:41 | `np.linspace(1/256, 1, 256)` has entry `i` equal to `(i+1)/256`. |
| Entropy.VisitBins | primary_analysis.py:37-41 | Visits exactly the byte values with a non-zero count, each once. Every `p` lies in (0,1] and is count/n, so the logarithm never sees 0. The `p`s sum to 1 when `n > 0`. The accumulated sum is Σ p·log2(p). |
| Entropy.EntropyEstimation | primary_analysis.py:23-43 | The bins visited are exactly the values occurring in the file. Their `p`s are their frequencies and sum to 1. The entropy is −Σ p·log2(p). An empty file gives no bins and entropy 0 without raising. |
| Pearson.ChiSquareClosedForm | pearson_criterion.py:37-40 | The chi-square sum over the 256 values equals 256·Σ obs² / n − n. |
| Pearson.CalculatePearsonCriterion | pearson_criterion.py:7-42 | An out-of-range list element gives `ValueError` and empty input gives `ZeroDivisionError`. Otherwise the statistic is non-negative and equals the closed form in the observed counts. |
| Pearson.PermutationInvariant | pearson_criterion.py:28-40 | Two inputs with the same histogram, such as permutations of each other, give the same result. |
| Pearson.ConstantSample | pearson_criterion.py:37-40 | `n` copies of one byte value give exactly `255·n`. |
| Pearson.UniformSample | pearson_criterion.py:37-40 | A sample in which every value occurs exactly `n/256` times gives exactly 0. |
| Pearson.InterpretPearsonResult | pearson_criterion.py:45-64 | The verdict is "uniform" iff `chi_square <= 293.25` and "deviates" iff it is above. The significance level is ignored. |
| Pearson.ConstantSampleDeviates | pearson_criterion.py:59-64 | A constant sample of two or more bytes is judged to deviate at any significance level. |
| Pearson.AllZeroBuffer | pearson_criterion.py:31-42 | A 4096-byte buffer of zeros gives 1044480. |
| Kolmogorov.MaxAndArgMax | kolmogorov_test.py:49-50 | `np.max` and `np.argmax`: the value is an upper bound attained at the returned index, and no earlier index attains it. |
| Kolmogorov.DifferenceBounds | kolmogorov_test.py:38-49 | Every difference between the empirical and theoretical CDFs lies in [0, 255/256]. The difference at 255 is 0. |
| Kolmogorov.CalculateKolmogorovSmirnov | kolmogorov_test.py:7-62 | An out-of-range list element gives `ValueError` and empty input gives `ZeroDivisionError`. Otherwise the statistic is the maximum difference, lies in [0, 255/256], and the reported position is the first index attaining it. The info fields hold the same maximum, the position twice, and the sample size. |
| Kolmogorov.AllZeroSample | kolmogorov_test.py:38-50 | An all-zero sample reaches the largest possible statistic 255/256 at index 0, and only there. |
| Kolmogorov.InterpretKsResult | kolmogorov_test.py:65-84 | A three-way split, stated without square roots as `ks² · n` against `1.36²` and `1.63²`. It covers `n == 0` (infinite critical values, so "uniform") and `n < 0` (NaN critical values, so "significant"). |
| Kolmogorov.CriticalValuesNested | kolmogorov_test.py:76-79 | A statistic within the alpha 0.05 bound is within the alpha 0.01 bound. |
| Kolmogorov.WithinCriticalBySqrt | kolmogorov_test.py:76-79 | For `n > 0` with `s = √n`, the square-free test agrees with `ks <= c / s`. |
| Kolmogorov.InterpretKsBySqrt | kolmogorov_test.py:76-84 | For `n > 0` the verdicts are exactly `ks <= 1.36/√n`, `1.36/√n < ks <= 1.63/√n`, and `ks > 1.63/√n`. |
| Signatures.FindFromMatches | signature_analysis.py:5-6 | Every position the scan reports is an occurrence of the pattern. |
| Signatures.FindFromSpaced | signature_analysis.py:5-6 | Consecutive reports are at least one pattern length apart (at least 1 for the empty pattern), so they increase and do not overlap. |
| Signatures.FindFromComplete | signature_analysis.py:5-6 | Every occurrence at or after the scan's start is reported or lies inside a reported match. |
| Signatures.FindBytesPattern | signature_analysis.py:3-6 | Reports only occurrences, in strictly increasing, non-overlapping order. Any occurrence it skips overlaps a reported one. |
| Signatures.OverlapMeansBorder | signature_analysis.py:5-6 | Two overlapping occurrences force the pattern to have a proper border. |
| Signatures.BorderlessFindsAll | signature_analysis.py:3-6 | For a non-empty pattern with no proper border, the reported positions are exactly the occurrence positions. |
| Signatures.EmptyPatternEverywhere | signature_analysis.py:3-6 | The empty pattern is reported at every position `0..len(data)`. |
| Signatures.NoMatchNothingFound | signature_analysis.py:5-6 | With no occurrence from the start position on, nothing is reported. |
| Signatures.TableComplete | signature_analysis.py:10-36 | Every table entry occurs in the table order, and at exactly one index, its position among the dictionary's distinct keys. |
| Signatures.TablePatternsBorderless | signature_analysis.py:10-36 | Every pattern in the table is non-empty and has no proper border, so within a chunk every occurrence is counted. |
| Signatures.AddChunk | signature_analysis.py:49-51 | One inner-loop pass keeps the same keys and adds each key's match count in the chunk. |
| Signatures.CountByChunks | signature_analysis.py:40-52 | Over the whole read loop, each key's final count is its initial count plus the matches summed over the 256 MiB chunks. |
| Signatures.PerformSignatureAnalysis | signature_analysis.py:38-54 | The result has an entry for every table signature. Each entry is the number of matches summed over the file's 256 MiB chunks. |
| Signatures.SingleChunkCountsEveryOccurrence | signature_analysis.py:43-51 | A file no larger than one chunk gets exactly one count per occurrence of each signature. |
| Signatures.BoundaryOccurrenceMissed | signature_analysis.py:43-51 | An ID3v2 tag placed across the first chunk boundary is an occurrence, yet is counted 0 times. |
| Signatures.FindFromCountsAll | signature_analysis.py:5-6 | For a non-empty pattern with no proper border, the scan from any start reports one position per occurrence at or after that start. |
| Signatures.BorderlessCountsAll | signature_analysis.py:3-6 | For such a pattern, `len(find_bytes_pattern(data, pattern))` is the number of occurrences in `data`. |
| Signatures.ChunkedCountIsInsideCount | signature_analysis.py:43-51 | Searching every read of size `c` on its own and summing counts, for a non-empty borderless pattern, exactly the occurrences at positions `i` with `i // c == (i + len(p) - 1) // c`, that is, those not crossing a chunk boundary. |
| Signatures.CountsOccurrencesInsideChunks | signature_analysis.py:38-54 | For every file and every table signature, the count reported is the number of occurrences lying wholly inside one 256 MiB chunk. |
| Bits.Utf8Encode | nist_sts.py:7 | `str.encode()` takes 1 to 4 bytes per character, and its length equals the string's length exactly when every character is ASCII. |
| Bits.EncodeChar | nist_sts.py:7 | UTF-8 encodes a character in 1 to 4 bytes. It uses 1 byte, equal to the code point, exactly when the code point is below 0x80. |
| Bits.EncodeCharRoundTrip | nist_sts.py:7 | Decoding a character's UTF-8 encoding gives back its code point. |
| Bits.Utf8RoundTrip | nist_sts.py:7 | Decoding `str.encode()` of a whole string gives back its code points. |
| Bits.AsciiEncodesToItself | contextual_analysis.py:12 | An ASCII string encodes to its own code points. |
| Bits.FromBytes | nist_sts.py:8 | `int.from_bytes` is below `256^len`. The little-endian value is the big-endian value of the reversed bytes. |
| Bits.ZeroBytesAreZero | nist_sts.py:8 | All-zero bytes, and the empty byte string, give 0. |
| Bits.ToBinary | nist_sts.py:8 | `bin(x)[2:]` is a non-empty string of `0`/`1`. It is `"0"` iff `x == 0`, and otherwise starts with `1`. |
| Bits.ParseToBinary | nist_sts.py:8 | Reading the binary string back gives the integer. |
| Bits.ToBinaryParse | nist_sts.py:8 | Every bit string without leading zeros is the binary form of its value. |
| Bits.ToBinaryLength | nist_sts.py:10 | For `x > 0`, `2^(len-1) <= x < 2^len`. |
| Bits.BitStringLength | nist_sts.py:10 | For non-empty data the bit string is between 1 and `8·len(data)` long. |
| Bits.ToBin | nist_sts.py:5-12 | A `str` is UTF-8 encoded and then treated like bytes. `bytes` and `bytearray` convert directly. Any other type raises `TypeError`. The result is a bit string. |
| Bits.ZeroDataIsZeroBit | nist_sts.py:10 | Zero-valued or empty data gives the bit string `"0"`. |
| Bits.LeadingByteFixesLength | nist_sts.py:10 | Big-endian data with a non-zero first byte gives between `8·len−7` and `8·len` bits. |
| Nist.FoldAnd | nist_sts.py:47-53 | The loop `verdict = verdict and excursion[4]` passes iff its start value and every verdict pass. Both loops start from `False`, so both always give `False`. |
| Nist.TrueAndFalseCounts | nist_sts.py:57 | A `Counter` of booleans has its `True` and `False` counts summing to the list length. |
| Nist.MajorityVote | nist_sts.py:61-64 | `True` iff the `True` votes are a strict majority. A tie gives `False`. |
| Nist.NistTests | nist_sts.py:14-64 | A wrong input type raises `TypeError` before the `try`. A battery exception gives `False`. Otherwise the result is `True` iff more than half of the 15 verdicts are `True`. |
| Nist.ExcursionVotes | nist_sts.py:47-55 | The two excursion folds appended after any list of verdicts add no `True` vote. |
| Nist.VoteNeedsEight | nist_sts.py:47-64 | Thirteen verdicts followed by the two excursion folds win the vote iff at least 8 of the thirteen are `True`. |
| Nist.VoteNeedsEightOfThirteen | nist_sts.py:47-64 | The vote passes iff at least 8 of the 13 library verdicts pass. |
| Nist.AllPassingBattery | nist_sts.py:47-64 | A battery passing every test, excursions included, still gets only 13 of 15 votes, and the vote passes. |
| Contextual.PassesAt001 | contextual_analysis.py:21-24 | A test fails iff its p-value is a number below 0.01. |
| Contextual.DigitsAddUp | contextual_analysis.py:17-18 | The `0` count plus the `1` count of a bit string is its length. |
| Contextual.MonobitCount | contextual_analysis.py:17-18 | `|#0 − #1|` is at most the length and has the same parity as the length. |
| Contextual.MonobitTestAsWritten | contextual_analysis.py:19-20 | As written, `monobit_test` raises `TypeError` for every input. |
| Contextual.MonobitAsWrittenRejectsValidInput | contextual_analysis.py:19-20 | The valid input `bytes([0x55, 0xAA])` has a bit string, yet the test as written raises `TypeError` on it. |
| Contextual.MonobitTest | contextual_analysis.py:8-24 | With the p-value computed as intended: wrong types raise `TypeError`; otherwise `#0 + #1` is the length, and the verdict fails iff the p-value of `(|#0 − #1|, length)` is below 0.01. |
| Contextual.FullBlocks | contextual_analysis.py:36-38 | Every kept block has length `M`. |
| Contextual.FullBlocksShape | contextual_analysis.py:36-38 | There are `⌊L/M⌋` blocks, and together they spell the first `M·⌊L/M⌋` bits. |
| Contextual.SlicesThenPopAreFullBlocks | contextual_analysis.py:36-38 | Slicing into length-`M` pieces and popping a short last piece leaves exactly the full blocks. |
| Contextual.PiInUnit | contextual_analysis.py:39-41 | Each `pi_i` lies in [0,1]. |
| Contextual.DeviationBounds | contextual_analysis.py:42-44 | Each `(pi_i − 1/2)²` lies in [0, 1/4]. |
| Contextual.DeviationZero | contextual_analysis.py:42-44 | A block's deviation is 0 iff exactly half its bits are ones. |
| Contextual.DeviationSumBounds | contextual_analysis.py:42-44 | The sum of deviations over `N` full blocks lies in [0, N/4]. |
| Contextual.DeviationSumZero | contextual_analysis.py:42-44 | The sum of deviations is 0 iff every block has exactly `M/2` ones. |
| Contextual.ChiSqObsBounds | contextual_analysis.py:45 | `0 <= chi_sq_obs <= M·N`, and it is 0 iff every block has exactly `M/2` ones. |
| Contextual.BlockFreqTest | contextual_analysis.py:27-50 | Errors by cause: a wrong input type raises `TypeError`, `M == 0` raises `ValueError` (zero `range` step), and `M < 0` raises `IndexError` (no blocks). Otherwise the blocks are the `⌊L/M⌋` full ones, `chi_sq_obs` is within its bounds, and the verdict fails iff the p-value is below 0.01. |
| Autocorr.ReadImageBlock | autocorr_test.py:39-51 | `EOFError` exactly when the offset is at or past the end or the block size is 0. Otherwise the result is the non-empty slice from the offset, at most one block long. |
| Autocorr.CenteredSumsToZero | autocorr_test.py:64-65 | The mean-centred values of a non-empty block sum to 0. |
| Autocorr.Coefficients | autocorr_test.py:67-76 | Exactly `min(max(max_lag, 0), max(0, len − 1))` coefficients. |
| Autocorr.CalculateAutocorrelation | autocorr_test.py:53-76 | That many coefficients. Coefficient `k` correlates `values[k:]` with `values[:len−k]`, two slices of equal length of at least 2. |
| Autocorr.MeanAbs | autocorr_test.py:96 | `np.mean(np.abs(...))` is a non-negative number exactly when the list is non-empty and free of `nan`, and `nan` otherwise. |
| Autocorr.AnalyzeBlock | autocorr_test.py:78-99 | Blocks of at most 1 byte give `(0.0, False)`. A 2-byte block gives `nan` (empty mean over lags ≥ 1) and is not flagged. Longer blocks give the mean of the absolute coefficients from lag 1. A block is flagged iff that mean is a number below the threshold. |
| Autocorr.BlockVerdictNonNegative | autocorr_test.py:96 | A defined block mean is non-negative. |
| Autocorr.RegionEntriesStep | autocorr_test.py:117-126 | One more block either leaves the results unchanged (`nan` mean) or appends its entry, and earlier entries are untouched. |
| Autocorr.RegionLength | autocorr_test.py:117-126 | At most one entry per block scanned. |
| Autocorr.RegionOffsets | autocorr_test.py:117-118 | Every entry's offset is `start + i·block_size` for a scanned block `i`. |
| Autocorr.RegionSorted | autocorr_test.py:117-126 | Entries are in strictly increasing offset order. |
| Autocorr.RegionMeansNonNegative | autocorr_test.py:124-126 | With a non-negative block analysis, every kept mean is non-negative. |
| Autocorr.RegionResultsShape | autocorr_test.py:115-128 | When every read succeeds: at most `num_blocks` entries; each offset lies inside the image and is a block offset; offsets strictly increase; means are non-negative. |
| Autocorr.ScanBlock | autocorr_test.py:118-126 | One iteration: `EOFError` past the end. Otherwise the block's entry, or nothing when its mean is `nan`. |
| Autocorr.RegionResultsStep | autocorr_test.py:117-126 | The results for `i+1` blocks are those for `i` blocks plus block `i`'s entry if its mean is defined. |
| Autocorr.LaterOffsetsPastEnd | autocorr_test.py:117-119 | Once a block offset is past the end of the image, so is every later one. |
| Autocorr.AnalyzeImageRegion | autocorr_test.py:101-128 | The call raises `EOFError` iff at least one block is scanned and either the last block starts at or past the end of the image or the block size is 0. Otherwise it returns the entries of the defined-mean blocks in offset order. |
| Autocorr.AnalyzeImageFile | autocorr_test.py:220-237 | Images of at most 2,559,488 bytes raise `EOFError`. Larger images raise `ValueError` iff no block has a defined mean. Otherwise the result is the non-negative mean of the block means. |

## Findings

| source | as written | input that shows it | evidently intended | confidence | as-written member | corrected member |
|---|---|---|---|---|---|---|
| contextual_analysis.py:19-20 | `mpmath.fdiv` is called with a single argument, which raises `TypeError` before any p-value is computed | `bytes([0x55, 0xAA])` (any bytes, bytearray or str) | `p = erfc(|s_obs| / √2)` with `s_obs = |#0 − #1| / √n`, as in section 2.1 of NIST SP 800-22 | not executed | Contextual.MonobitTestAsWritten | Contextual.MonobitTest |

## Left out

- Plotting (`plot_analysis_scatter`, `plot_autocorrelation`, the seaborn CDF plot in `ks_plot.py`): side effects only.
- Console output, the script-level calls on hard-coded paths, and the `ProcessPoolExecutor` in `ks_plot.py`: I/O and concurrency. Files are byte sequences instead.
- `validate_image_file`: a file-system check. The model's image always exists and is readable. For a missing or unreadable image `read_image_block` raises `ValueError`, which its `except (IOError, OSError)` does not catch. A failed open or read returns `None`. Neither path is modelled.
- Negative offsets and block sizes in `read_image_block`: the model's offsets and block sizes are natural numbers, because the scripts only ever pass non-negative ones.
- The internals of the `randomness_testsuite` battery: the battery is a parameter returning the verdicts or an exception.
- Floating-point arithmetic: every statistic is an exact `real`. `np.corrcoef`, `log2`, `erfc`, `gammaincc` and `sqrt` are parameters, or are eliminated as in the KS interpretation. Summation order and rounding are not modelled.
- Entropy.EntropyEstimation: visits the present bins in ascending byte order, whereas Python visits them in first-occurrence order. Over exact reals the sum is the same; under floating point it may differ in the last bits.
- Kolmogorov.CalculateKolmogorovSmirnov: the `critical_value_001`/`critical_value_005` info fields (`1.63/√n`, `1.36/√n`) are not part of the model's info record, because they need a square root.
- `bytes` versus `bytearray`: both are the same byte sequence in the model. A list argument to the statistics is a sequence of integers. Other element types, such as floats or strings, are not modelled.
- Strings are sequences of Unicode scalar values. Lone surrogates, which make `str.encode()` raise, are not modelled.
- Histogram.CountChunks: `bs` is a natural number. `read(-1)` and `read(None)`, which read the whole file at once, are not modelled.
- Entropy.EntropyEstimation: `bs` is a natural number, for the same reason as in `Histogram.CountChunks`.
- Pearson.InterpretPearsonResult: takes a number. For a `nan` statistic both comparisons are false and Python returns `None`, which is not modelled.
- Nist.NistTests: the two excursion results are lists whose entries stand in for what the loops iterate over. Both folds start from `False`, so `and` short-circuits and `excursion[4]` is never evaluated; what an entry holds does not matter. The loops over `excursions_data` and `excursions_var_data` run outside the `try`, so an exception raised while iterating them would escape instead of giving `False`. That is not modelled.
- `sys.byteorder` is a parameter of the bit-string conversion, not platform state.
- `statistical_analysis.py`, `compression_test.py`: foreign compressors and mpmath logarithms, leaving only type dispatch and an average.
- `image_splitter.py`: it wraps the GPT parser of the `pygpt` library, which is not part of this model.
- `parted_check`: a call into libparted.
- `main.py`: an interactive prompt loop around a missing module and a stub.
- `autocorr_dbg.py`: a profiled copy of `autocorr_test.py`. Its threshold of 0.05 is covered by the threshold parameter, but its block count `max(1, size // block_size)` is not modelled.
