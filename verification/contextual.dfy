/** `contextual_analysis.py`: two tests of NIST SP 800-22 on the bit string
    of the data, the Frequency (Monobit) Test of its section 2.1 and the
    Frequency Test within a Block of its section 2.2. The counting and the
    block statistic are modelled exactly; the p-value functions (`erfc`,
    `gammaincc`) are parameters. */
module Contextual {
  import opened Common
  import opened Streams
  import opened Bits

  /** The decision both tests share: `False` iff `p_val < 0.01` (a NaN
      p-value passes, since the comparison is false). */
  function PassesAt001(pValue: Float): (r: bool)
    ensures !r <==> Below(pValue, 0.01)
  {
    !Below(pValue, 0.01)
  }

  /** `Counter(list(bin_data))`: the numbers of `'0'` and `'1'` digits. */
  function Zeros(bits: string): nat {
    multiset(bits)['0']
  }

  function Ones(bits: string): nat {
    multiset(bits)['1']
  }

  /** In a bit string every digit is a zero or a one. */
  lemma {:induction false} DigitsAddUp(bits: string)
    requires IsBitString(bits)
    ensures Zeros(bits) + Ones(bits) == |bits|
  {
    if bits != [] {
      var init, last := bits[..|bits| - 1], bits[|bits| - 1];
      assert bits == init + [last];
      assert multiset(bits) == multiset(init) + multiset{last};
      DigitsAddUp(init);
    }
  }

  /** `count = |#'0' - #'1'|`: at most the length, and of the same parity. */
  function MonobitCount(bits: string): (count: nat)
    requires IsBitString(bits)
    ensures count <= |bits|
    ensures (count + |bits|) % 2 == 0
  {
    DigitsAddUp(bits);
    AbsInt(Zeros(bits) - Ones(bits))
  }

  /** `monobit_test` as written: after the type check and the count, the
      p-value line calls `mpmath.fdiv` with a single argument, which raises
      `TypeError`. No input gets past it. */
  function MonobitTestAsWritten(data: PyValue, order: ByteOrder): (r: Result<bool>)
    ensures r == Failure(TypeError)
  {
    var bits :- ToBin(data, order);
    var count := MonobitCount(bits);
    Failure(TypeError)
  }

  /** A valid two-byte input, for which the bit string is built and
      counted, still ends in `TypeError`. */
  lemma MonobitAsWrittenRejectsValidInput()
    ensures ToBin(BytesLike([0x55, 0xAA]), Little).Success?
    ensures MonobitTestAsWritten(BytesLike([0x55, 0xAA]), Little) == Failure(TypeError)
  {
  }

  /** `monobit_test` with the p-value call corrected to
      `erfc(|s_obs| / sqrt(2))`: `pValue(count, n)` stands for that p-value
      of the count and the bit-string length. Only a value of the wrong type
      raises. */
  function MonobitTest(data: PyValue, order: ByteOrder, pValue: (nat, nat) -> Float): (r: Result<bool>)
    ensures r.Failure? <==> data.OtherValue?
    ensures r.Failure? ==> r.error == TypeError
    ensures r.Success? ==>
              var bits := ToBin(data, order).value;
              && Zeros(bits) + Ones(bits) == |bits|
              && (!r.value <==> Below(pValue(AbsInt(Zeros(bits) - Ones(bits)), |bits|), 0.01))
  {
    var bits :- ToBin(data, order);
    DigitsAddUp(bits);
    Success(PassesAt001(pValue(MonobitCount(bits), |bits|)))
  }

  /** A trailing partial slice is dropped (`blocks.pop()`). */
  function KeepFull(blocks: seq<string>, m: nat): seq<string> {
    if blocks != [] && |blocks[|blocks| - 1]| != m then blocks[..|blocks| - 1] else blocks
  }

  /** The consecutive full blocks of length `m`. */
  function FullBlocks(bits: string, m: nat): (r: seq<string>)
    requires m > 0
    ensures forall k :: 0 <= k < |r| ==> |r[k]| == m
    decreases |bits|
  {
    if |bits| < m then [] else [bits[..m]] + FullBlocks(bits[m..], m)
  }

  /** There are `floor(|bits| / m)` full blocks (`N * m <= |bits| <
      (N + 1) * m`) and together they are the front of the bit string. */
  lemma {:induction false} FullBlocksShape(bits: string, m: nat)
    requires m > 0
    ensures |FullBlocks(bits, m)| * m <= |bits| < (|FullBlocks(bits, m)| + 1) * m
    ensures Flatten(FullBlocks(bits, m)) == bits[..|FullBlocks(bits, m)| * m]
    decreases |bits|
  {
    if |bits| >= m {
      FullBlocksShape(bits[m..], m);
      var rest := FullBlocks(bits[m..], m);
      var n := |rest|;
      assert FullBlocks(bits, m) == [bits[..m]] + rest;
      assert Flatten(FullBlocks(bits, m)) == bits[..m] + Flatten(rest);
      MulSucc(n, m);
      MulSucc(n + 1, m);
      assert bits[..m] + bits[m..][..n * m] == bits[..(n + 1) * m];
    }
  }

  lemma MulSucc(n: nat, m: nat)
    ensures (n + 1) * m == n * m + m
  {
  }

  /** The list comprehension over `range(0, len, m)` followed by the pop is
      exactly the full blocks. */
  lemma {:induction false} SlicesThenPopAreFullBlocks(bits: string, m: nat)
    requires m > 0
    ensures KeepFull(Chunks(bits, m), m) == FullBlocks(bits, m)
    decreases |bits|
  {
    if bits != [] {
      var chunk := Read(bits, 0, m);
      var rest := Chunks(bits[|chunk|..], m);
      assert Chunks(bits, m) == [chunk] + rest;
      if |bits| <= m {
        assert bits[|chunk|..] == [];
        assert chunk == bits;
      } else {
        assert chunk == bits[..m];
        assert rest != [];
        SlicesThenPopAreFullBlocks(bits[m..], m);
        assert ([chunk] + rest)[..|rest|] == [chunk] + rest[..|rest| - 1];
      }
    }
  }

  /** `pi_i = Counter(block)["1"] / M`. */
  function Pi(block: string, m: nat): real
    requires m > 0
  {
    Ones(block) as real / m as real
  }

  /** `(pi_i - 0.5) ** 2`. */
  function Deviation(block: string, m: nat): real
    requires m > 0
  {
    (Pi(block, m) - 0.5) * (Pi(block, m) - 0.5)
  }

  /** `pi_i_sum`, accumulated in block order. */
  function DeviationSum(blocks: seq<string>, m: nat): real
    requires m > 0
  {
    if blocks == [] then 0.0
    else DeviationSum(blocks[..|blocks| - 1], m) + Deviation(blocks[|blocks| - 1], m)
  }

  /** `chi_sq_obs = 4 * M * pi_i_sum`. */
  function ChiSqObs(blocks: seq<string>, m: nat): real
    requires m > 0
  {
    4.0 * m as real * DeviationSum(blocks, m)
  }

  lemma OnesWithinBlock(block: string)
    ensures Ones(block) <= |block|
  {
    assert Ones(block) <= |multiset(block)|;
  }

  /** A block's share of ones lies in [0, 1]. */
  lemma PiInUnit(block: string, m: nat)
    requires m > 0 && |block| == m
    ensures 0.0 <= Pi(block, m) <= 1.0
  {
    OnesWithinBlock(block);
    RatioAtMostOne(Ones(block), m);
  }

  lemma RatioAtMostOne(a: nat, m: nat)
    requires a <= m && m > 0
    ensures 0.0 <= a as real / m as real <= 1.0
  {
    DivSelf(m as real);
  }

  /** Each term lies in [0, 1/4]. */
  lemma DeviationBounds(block: string, m: nat)
    requires m > 0 && |block| == m
    ensures 0.0 <= Deviation(block, m) <= 0.25
  {
    PiInUnit(block, m);
    var p := Pi(block, m);
    assert (p - 0.5) * (p - 0.5) == p * p - p + 0.25;
    assert p * p <= p * 1.0;
  }

  /** A term vanishes iff the block holds exactly as many ones as zeros. */
  lemma DeviationZero(block: string, m: nat)
    requires m > 0
    ensures Deviation(block, m) == 0.0 <==> 2 * Ones(block) == m
  {
    var p := Pi(block, m);
    if p != 0.5 {
      SquareNonzero(p - 0.5);
    }
    assert p * m as real == Ones(block) as real;
  }

  lemma SquareNonzero(d: real)
    requires d != 0.0
    ensures d * d > 0.0
  {
  }

  lemma {:induction false} DeviationSumBounds(blocks: seq<string>, m: nat)
    requires m > 0
    requires forall k :: 0 <= k < |blocks| ==> |blocks[k]| == m
    ensures 0.0 <= DeviationSum(blocks, m) <= 0.25 * |blocks| as real
  {
    if blocks != [] {
      DeviationSumBounds(blocks[..|blocks| - 1], m);
      DeviationBounds(blocks[|blocks| - 1], m);
    }
  }

  lemma {:induction false} DeviationSumZero(blocks: seq<string>, m: nat)
    requires m > 0
    requires forall k :: 0 <= k < |blocks| ==> |blocks[k]| == m
    ensures DeviationSum(blocks, m) == 0.0 <==> forall k :: 0 <= k < |blocks| ==> 2 * Ones(blocks[k]) == m
  {
    if blocks != [] {
      var init, last := blocks[..|blocks| - 1], blocks[|blocks| - 1];
      DeviationSumZero(init, m);
      DeviationSumBounds(init, m);
      DeviationBounds(last, m);
      DeviationZero(last, m);
      if forall k :: 0 <= k < |blocks| ==> 2 * Ones(blocks[k]) == m {
        assert forall k :: 0 <= k < |init| ==> init[k] == blocks[k];
      }
      if DeviationSum(blocks, m) == 0.0 {
        forall k | 0 <= k < |blocks|
          ensures 2 * Ones(blocks[k]) == m
        {
          if k < |init| {
            assert init[k] == blocks[k];
          }
        }
      }
    }
  }

  /** The statistic of `n` blocks of length `m` lies in [0, m * n], and is
      0 iff every block is balanced. */
  lemma ChiSqObsBounds(blocks: seq<string>, m: nat)
    requires m > 0
    requires forall k :: 0 <= k < |blocks| ==> |blocks[k]| == m
    ensures 0.0 <= ChiSqObs(blocks, m) <= ChiSqCeiling(m, |blocks|)
    ensures ChiSqObs(blocks, m) == 0.0 <==> forall k :: 0 <= k < |blocks| ==> 2 * Ones(blocks[k]) == m
  {
    var s := DeviationSum(blocks, m);
    DeviationSumBounds(blocks, m);
    DeviationSumZero(blocks, m);
    ScaledSum(s, m, |blocks|);
    assert ChiSqObs(blocks, m) == 4.0 * m as real * s;
  }

  /** The largest value the statistic of `n` blocks of length `m` can take:
      `m * n`, reached when every block is all zeros or all ones. */
  function ChiSqCeiling(m: nat, n: nat): real {
    m as real * n as real
  }

  lemma ScaledSum(s: real, m: nat, n: nat)
    requires m > 0 && 0.0 <= s <= 0.25 * n as real
    ensures 0.0 <= 4.0 * m as real * s <= ChiSqCeiling(m, n)
    ensures 4.0 * m as real * s == 0.0 <==> s == 0.0
  {
    var mr, nr := m as real, n as real;
    assert 4.0 * mr * s == mr * (4.0 * s);
    ScaleMonotone(mr, 4.0 * s, nr);
  }

  lemma ScaleMonotone(x: real, a: real, b: real)
    requires x > 0.0 && 0.0 <= a <= b
    ensures 0.0 <= x * a <= x * b
    ensures x * a == 0.0 <==> a == 0.0
  {
  }

  /** `block_freq_test`: the type check, the bit string, the blocks of
      length `M` (a zero step makes `range` raise `ValueError`; a negative
      one yields no slice and `blocks[-1]` raises `IndexError`), the
      statistic, and the p-value `gammaincc(N / 2, chi_sq_obs / 2)`, here
      `pValue(N, chi_sq_obs)`, against 0.01. */
  function BlockFreqTest(data: PyValue, order: ByteOrder, m: int, pValue: (nat, real) -> Float): (r: Result<bool>)
    ensures data.OtherValue? ==> r == Failure(TypeError)
    ensures !data.OtherValue? && m == 0 ==> r == Failure(ValueError)
    ensures !data.OtherValue? && m < 0 ==> r == Failure(IndexError)
    ensures r.Success? <==> !data.OtherValue? && m > 0
    ensures r.Success? ==>
              var bits := ToBin(data, order).value;
              var blocks := FullBlocks(bits, m);
              && |blocks| * m <= |bits| < (|blocks| + 1) * m
              && 0.0 <= ChiSqObs(blocks, m) <= ChiSqCeiling(m, |blocks|)
              && (!r.value <==> Below(pValue(|blocks|, ChiSqObs(blocks, m)), 0.01))
  {
    var bits :- ToBin(data, order);
    if m == 0 then Failure(ValueError)
    else if m < 0 then Failure(IndexError)
    else
      var blocks := KeepFull(Chunks(bits, m), m);
      assert blocks == FullBlocks(bits, m) by {
        SlicesThenPopAreFullBlocks(bits, m);
      }
      FullBlocksShape(bits, m);
      ChiSqObsBounds(FullBlocks(bits, m), m);
      Success(PassesAt001(pValue(|blocks|, ChiSqObs(blocks, m))))
  }
}
