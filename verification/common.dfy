/** Vocabulary shared by every analysis script: byte values, the Python
    exceptions the scripts let escape, and exact sums over sequences. */
module Common {

  /** One element of a Python `bytes` object (or a list entry that passed the
      0..255 range check). */
  type Byte = b: int | 0 <= b < 256

  /** The exceptions that escape from the modelled functions. */
  datatype PyError =
    | ValueError         // rejected argument value
    | TypeError          // argument of the wrong Python type, or a bad call
    | IndexError         // `blocks[-1]` on an empty list
    | ZeroDivisionError  // `x / 0` on Python numbers
    | EOFError           // explicit end-of-file signal of the block reader

  /** A Python call either returns a value or raises one of `PyError`. */
  datatype Result<+T> = Success(value: T) | Failure(error: PyError) {

    predicate IsFailure() {
      Failure?
    }

    function PropagateFailure<U>(): Result<U>
      requires Failure?
    {
      Failure(error)
    }

    function Extract(): T
      requires Success?
    {
      value
    }
  }

  /** A floating-point result as far as the scripts' comparisons see it: a
      number, or NaN, for which every comparison is false. */
  datatype Float = Num(value: real) | NaN

  /** `x < bound` on a float: false for NaN. */
  predicate Below(x: Float, bound: real) {
    x.Num? && x.value < bound
  }

  /** The argument of `calculate_pearson_criterion` and
      `calculate_kolmogorov_smirnov`: a `bytes` object, or any other sequence
      of integers (a list, a `bytearray`), which is range-checked. */
  datatype ByteInput = BytesObject(bytes: seq<Byte>) | IntList(ints: seq<int>)

  /** The shared preamble of both statistics: `bytes` becomes a list of its
      values, anything else is kept, and an element outside 0..255 raises
      `ValueError`. */
  function ToByteList(input: ByteInput): (r: Result<seq<Byte>>)
    ensures r.Failure? <==> input.IntList? && exists i :: 0 <= i < |input.ints| && !(0 <= input.ints[i] < 256)
    ensures r.Failure? ==> r.error == ValueError
    ensures r.Success? && input.BytesObject? ==> r.value == input.bytes
    ensures r.Success? && input.IntList? ==>
              |r.value| == |input.ints| && forall i :: 0 <= i < |r.value| ==> r.value[i] == input.ints[i]
  {
    match input
    case BytesObject(b) => Success(b)
    case IntList(xs) =>
      if forall i :: 0 <= i < |xs| ==> 0 <= xs[i] < 256
      then Success(seq(|xs|, i requires 0 <= i < |xs| => xs[i] as Byte))
      else Failure(ValueError)
  }

  function Min(a: int, b: int): int {
    if a <= b then a else b
  }

  function Max(a: int, b: int): int {
    if a <= b then b else a
  }

  function AbsInt(x: int): nat {
    if x < 0 then -x else x
  }

  function AbsReal(x: real): real {
    if x < 0.0 then -x else x
  }

  /** Sum of a sequence of naturals, peeling the last element. */
  function SumNat(s: seq<nat>): nat {
    if s == [] then 0 else SumNat(s[..|s| - 1]) + s[|s| - 1]
  }

  /** Sum of a sequence of reals, peeling the last element (the order in
      which a Python loop accumulates). */
  function SumReal(s: seq<real>): real {
    if s == [] then 0.0 else SumReal(s[..|s| - 1]) + s[|s| - 1]
  }

  /** Concatenation of a sequence of chunks. */
  function Flatten<T>(chunks: seq<seq<T>>): seq<T> {
    if chunks == [] then [] else chunks[0] + Flatten(chunks[1..])
  }

  lemma DivSelf(x: real)
    requires x > 0.0
    ensures x / x == 1.0
  {
  }

  lemma {:induction false} SumRealAppend(s: seq<real>, t: seq<real>)
    ensures SumReal(s + t) == SumReal(s) + SumReal(t)
    decreases |t|
  {
    if t == [] {
      assert s + t == s;
    } else {
      var t' := t[..|t| - 1];
      assert (s + t)[..|s + t| - 1] == s + t';
      SumRealAppend(s, t');
    }
  }
}
