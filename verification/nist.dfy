/** `nist_tests` of `nist_sts.py`: the bit string is handed to the NIST
    SP 800-22 battery of an external library, whose verdicts are combined by
    a majority vote. The battery itself is a parameter: only which verdicts
    are read, how the excursion verdicts are folded and how the vote is
    taken is modelled. */
module Nist {
  import opened Common
  import opened Bits

  /** What the battery calls return, in the order `nist_tests` makes them:
      thirteen verdicts, and one element per entry of each of the two
      random-excursion results. The excursion loops only iterate over those
      entries: both start from `False`, so `and` never evaluates
      `excursion[4]`, and the elements stand in for the entries whatever
      they hold. */
  datatype Battery = Battery(
    monobit: bool,
    blockFrequency: bool,
    runs: bool,
    longestRun: bool,
    spectral: bool,
    nonOverlappingTemplate: bool,
    overlappingTemplate: bool,
    universal: bool,
    linearComplexity: bool,
    serial: bool,
    approximateEntropy: bool,
    cumulativeSumsForward: bool,
    cumulativeSumsBackward: bool,
    excursions: seq<bool>,
    excursionsVariant: seq<bool>)

  /** The loop `verdict = verdict and excursion[4]` started from `start`:
      it passes exactly when the start value and every verdict do, so
      started from `False`, as both excursion loops are, it is `False`
      whatever the excursion verdicts are. */
  function FoldAnd(start: bool, vs: seq<bool>): (r: bool)
    ensures r <==> start && forall i :: 0 <= i < |vs| ==> vs[i]
  {
    if vs == [] then start
    else
      FoldAnd01(vs);
      FoldAnd(start && vs[0], vs[1..])
  }

  lemma FoldAnd01(vs: seq<bool>)
    requires vs != []
    ensures (forall i :: 0 <= i < |vs| ==> vs[i]) <==> vs[0] && forall i :: 0 <= i < |vs[1..]| ==> vs[1..][i]
  {
    if vs[0] && forall i :: 0 <= i < |vs[1..]| ==> vs[1..][i] {
      forall i | 0 < i < |vs|
        ensures vs[i]
      {
        assert vs[i] == vs[1..][i - 1];
      }
    }
  }

  /** The thirteen verdicts read directly from the battery. */
  function LibraryVerdicts(b: Battery): (r: seq<bool>)
    ensures |r| == 13
  {
    [b.monobit, b.blockFrequency, b.runs, b.longestRun, b.spectral,
     b.nonOverlappingTemplate, b.overlappingTemplate, b.universal,
     b.linearComplexity, b.serial, b.approximateEntropy,
     b.cumulativeSumsForward, b.cumulativeSumsBackward]
  }

  /** The library verdicts followed by the two excursion folds. */
  function WithExcursions(library: seq<bool>, excursions: seq<bool>, variant: seq<bool>): seq<bool> {
    library + [FoldAnd(false, excursions), FoldAnd(false, variant)]
  }

  /** The list `verdcits`: the thirteen, then the two excursion folds. */
  function Verdicts(b: Battery): (r: seq<bool>)
    ensures |r| == 15
  {
    WithExcursions(LibraryVerdicts(b), b.excursions, b.excursionsVariant)
  }

  /** A `Counter` of booleans counts the `True` and the `False` entries,
      and every entry is one of the two. */
  lemma {:induction false} TrueAndFalseCounts(vs: seq<bool>)
    ensures multiset(vs)[true] + multiset(vs)[false] == |vs|
  {
    if vs != [] {
      var init := vs[..|vs| - 1];
      var last := vs[|vs| - 1];
      assert vs == init + [last];
      assert multiset(vs) == multiset(init) + multiset{last};
      TrueAndFalseCounts(init);
      if last {
        assert multiset(vs)[true] == multiset(init)[true] + 1;
      } else {
        assert multiset(vs)[false] == multiset(init)[false] + 1;
      }
    }
  }

  /** `verdicts_counter[True] > verdicts_counter[False]`: a strict
      majority of `True`; a tie is `False`. */
  function MajorityVote(vs: seq<bool>): (r: bool)
    ensures r <==> 2 * multiset(vs)[true] > |vs|
  {
    TrueAndFalseCounts(vs);
    multiset(vs)[true] > multiset(vs)[false]
  }

  /** `nist_tests`: the bit string is built outside the `try`, so a value
      of the wrong type raises `TypeError`; any exception from the battery
      makes the result `False`; otherwise the majority vote decides. */
  function NistTests(data: PyValue, order: ByteOrder, battery: string -> Result<Battery>): (r: Result<bool>)
    ensures r.Failure? <==> data.OtherValue?
    ensures r.Failure? ==> r.error == TypeError
    ensures r.Success? ==> ToBin(data, order).Success?
    ensures r.Success? ==>
              var outcome := battery(ToBin(data, order).value);
              && (outcome.Failure? ==> !r.value)
              && (outcome.Success? ==> (r.value <==> 2 * multiset(Verdicts(outcome.value))[true] > 15))
  {
    var d :- ToBin(data, order);
    match battery(d)
    case Failure(_) => Success(false)
    case Success(b) => Success(MajorityVote(Verdicts(b)))
  }

  /** A list all of whose entries are `True` counts `True` once per entry. */
  lemma {:induction false} AllTrueCount(vs: seq<bool>)
    requires forall i :: 0 <= i < |vs| ==> vs[i]
    ensures multiset(vs)[true] == |vs|
  {
    if vs != [] {
      assert vs == [vs[0]] + vs[1..];
      AllTrueCount(vs[1..]);
    }
  }

  /** Appending `False` entries adds no `True` vote. */
  lemma {:induction false} AppendFalseVotes(vs: seq<bool>, tail: seq<bool>)
    requires forall i :: 0 <= i < |tail| ==> !tail[i]
    ensures multiset(vs + tail)[true] == multiset(vs)[true]
  {
    if tail != [] {
      var init := tail[..|tail| - 1];
      assert vs + tail == (vs + init) + [tail[|tail| - 1]];
      AppendFalseVotes(vs, init);
    }
  }

  /** Two excursion verdicts appended after the library verdicts add no
      `True` vote. */
  lemma ExcursionVotes(library: seq<bool>, excursions: seq<bool>, variant: seq<bool>)
    ensures multiset(WithExcursions(library, excursions, variant))[true] == multiset(library)[true]
  {
    AppendFalseVotes(library, [FoldAnd(false, excursions), FoldAnd(false, variant)]);
  }

  /** Thirteen verdicts followed by the two excursion folds win the vote
      iff at least 8 of the thirteen are `True`. */
  lemma VoteNeedsEight(library: seq<bool>, excursions: seq<bool>, variant: seq<bool>)
    requires |library| == 13
    ensures MajorityVote(WithExcursions(library, excursions, variant)) <==> multiset(library)[true] >= 8
  {
    ExcursionVotes(library, excursions, variant);
  }

  /** With both excursion verdicts fixed at `False`, the vote passes iff at
      least 8 of the 13 library verdicts pass. */
  lemma VoteNeedsEightOfThirteen(b: Battery)
    ensures MajorityVote(Verdicts(b)) <==> multiset(LibraryVerdicts(b))[true] >= 8
  {
    VoteNeedsEight(LibraryVerdicts(b), b.excursions, b.excursionsVariant);
  }

  /** Even a battery that passes every test, excursions included, gets
      only 13 of 15 votes; the verdict is still `True`. */
  lemma AllPassingBattery(b: Battery)
    requires b.monobit && b.blockFrequency && b.runs && b.longestRun && b.spectral
    requires b.nonOverlappingTemplate && b.overlappingTemplate && b.universal
    requires b.linearComplexity && b.serial && b.approximateEntropy
    requires b.cumulativeSumsForward && b.cumulativeSumsBackward
    ensures multiset(Verdicts(b))[true] == 13
    ensures MajorityVote(Verdicts(b))
  {
    ExcursionVotes(LibraryVerdicts(b), b.excursions, b.excursionsVariant);
    AllTrueCount(LibraryVerdicts(b));
  }
}
