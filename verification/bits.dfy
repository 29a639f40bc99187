/** The bit string shared by `to_bin` in `nist_sts.py` and the two tests of
    `contextual_analysis.py`: the input's bytes are read as one unsigned
    integer (`int.from_bytes`), which is written in binary without the `0b`
    prefix and without leading zeros (`bin(x)[2:]`). */
module Bits {
  import opened Common

  /** The Python value handed to the bit-string conversions. `bytes` and
      `bytearray` are treated alike. */
  datatype PyValue = Text(text: string) | BytesLike(bytes: seq<Byte>) | OtherValue

  /** `sys.byteorder`, a parameter of the model. */
  datatype ByteOrder = Little | Big

  /** The UTF-8 encoding of one Unicode scalar value. */
  function EncodeChar(c: char): (r: seq<Byte>)
    ensures 1 <= |r| <= 4
    ensures (c as int < 0x80) <==> |r| == 1
    ensures c as int < 0x80 ==> r == [c as int]
  {
    var v := c as int;
    if v < 0x80 then [v]
    else if v < 0x800 then [0xC0 + v / 64, 0x80 + v % 64]
    else if v < 0x10000 then [0xE0 + v / 4096, 0x80 + (v / 64) % 64, 0x80 + v % 64]
    else [0xF0 + v / 262144, 0x80 + (v / 4096) % 64, 0x80 + (v / 64) % 64, 0x80 + v % 64]
  }

  /** The scalar value a well-formed UTF-8 sequence for one character
      denotes: the lead byte gives the length, each continuation byte six
      more bits. */
  function DecodeChar(b: seq<Byte>): int
    requires 1 <= |b| <= 4
  {
    var b0, b1 := b[0] as int, if |b| > 1 then b[1] as int else 0;
    var b2, b3 := if |b| > 2 then b[2] as int else 0, if |b| > 3 then b[3] as int else 0;
    if |b| == 1 then b0
    else if |b| == 2 then (b0 - 0xC0) * 64 + (b1 - 0x80)
    else if |b| == 3 then (b0 - 0xE0) * 4096 + (b1 - 0x80) * 64 + (b2 - 0x80)
    else (b0 - 0xF0) * 262144 + (b1 - 0x80) * 4096 + (b2 - 0x80) * 64 + (b3 - 0x80)
  }

  /** Decoding the encoding of a character gives the character back. */
  lemma EncodeCharRoundTrip(c: char)
    ensures DecodeChar(EncodeChar(c)) == c as int
  {
    var v := c as int;
    var e := EncodeChar(c);
    if 0x80 <= v < 0x800 {
      assert e == [0xC0 + v / 64, 0x80 + v % 64];
      SplitSixBits(v);
    } else if 0x800 <= v < 0x10000 {
      assert e == [0xE0 + v / 4096, 0x80 + (v / 64) % 64, 0x80 + v % 64];
      SplitSixBits(v);
      SplitSixBits(v / 64);
      assert v / 4096 == (v / 64) / 64;
    } else if 0x10000 <= v {
      assert e == [0xF0 + v / 262144, 0x80 + (v / 4096) % 64, 0x80 + (v / 64) % 64, 0x80 + v % 64];
      SplitSixBits(v);
      SplitSixBits(v / 64);
      SplitSixBits(v / 4096);
      assert v / 4096 == (v / 64) / 64;
      assert v / 262144 == (v / 4096) / 64;
    }
  }

  lemma SplitSixBits(v: nat)
    ensures v == (v / 64) * 64 + v % 64
  {
  }

  /** `str.encode("utf-8")`: the characters' encodings, concatenated. */
  function Utf8Encode(s: string): (r: seq<Byte>)
    ensures |s| <= |r| <= 4 * |s|
    ensures |r| == |s| <==> forall i :: 0 <= i < |s| ==> s[i] as int < 0x80
  {
    if s == [] then [] else EncodeChar(s[0]) + Utf8Encode(s[1..])
  }

  /** The length of a character's encoding, read from its lead byte. */
  function LeadLength(lead: Byte): nat {
    if lead < 0x80 then 1 else if lead < 0xE0 then 2 else if lead < 0xF0 then 3 else 4
  }

  lemma LeadByteGivesLength(c: char)
    ensures LeadLength(EncodeChar(c)[0]) == |EncodeChar(c)|
  {
  }

  /** Decoding a UTF-8 byte string into scalar values, one character at a
      time; a truncated last character ends the decoding. */
  function Utf8Decode(b: seq<Byte>): seq<int>
    decreases |b|
  {
    if b == [] then []
    else
      var len := LeadLength(b[0]);
      if |b| < len then [] else [DecodeChar(b[..len])] + Utf8Decode(b[len..])
  }

  /** The encoding loses nothing: decoding it gives back the string's
      scalar values. */
  lemma {:induction false} Utf8RoundTrip(s: string)
    ensures Utf8Decode(Utf8Encode(s)) == seq(|s|, i requires 0 <= i < |s| => s[i] as int)
  {
    if s != [] {
      var e, rest := EncodeChar(s[0]), Utf8Encode(s[1..]);
      var b := e + rest;
      LeadByteGivesLength(s[0]);
      assert b[0] == e[0];
      assert b[..|e|] == e && b[|e|..] == rest;
      EncodeCharRoundTrip(s[0]);
      Utf8RoundTrip(s[1..]);
    }
  }

  /** An ASCII string encodes to its own character codes. */
  lemma {:induction false} AsciiEncodesToItself(s: string)
    requires forall i :: 0 <= i < |s| ==> s[i] as int < 0x80
    ensures Utf8Encode(s) == seq(|s|, i requires 0 <= i < |s| => s[i] as int)
  {
    if s != [] {
      var rest := s[1..];
      forall i | 0 <= i < |rest|
        ensures rest[i] as int < 0x80
      {
        assert rest[i] == s[i + 1];
      }
      AsciiEncodesToItself(rest);
      var codes := seq(|rest|, i requires 0 <= i < |rest| => rest[i] as int);
      assert Utf8Encode(s) == [s[0] as int] + codes;
      assert seq(|s|, i requires 0 <= i < |s| => s[i] as int) == [s[0] as int] + codes;
    }
  }

  function Pow2(k: nat): (r: nat)
    ensures r >= 1
  {
    if k == 0 then 1 else 2 * Pow2(k - 1)
  }

  function Pow256(k: nat): (r: nat)
    ensures r >= 1
  {
    if k == 0 then 1 else 256 * Pow256(k - 1)
  }

  /** Eight more bits multiply the range by 256. */
  lemma Pow2ByteStep(m: nat)
    ensures Pow2(m + 8) == 256 * Pow2(m)
  {
    assert Pow2(m + 2) == 4 * Pow2(m);
    assert Pow2(m + 4) == 4 * Pow2(m + 2);
    assert Pow2(m + 6) == 4 * Pow2(m + 4);
    assert Pow2(m + 8) == 4 * Pow2(m + 6);
  }

  lemma {:induction false} Pow256IsPow2(k: nat)
    ensures Pow256(k) == Pow2(8 * k)
  {
    if k > 0 {
      Pow256IsPow2(k - 1);
      Pow2ByteStep(8 * (k - 1));
    }
  }

  /** Big-endian value of a byte string: the first byte is the most
      significant one. */
  function FromBytesBig(s: seq<Byte>): nat {
    if s == [] then 0 else FromBytesBig(s[..|s| - 1]) * 256 + s[|s| - 1]
  }

  function Reverse<T>(s: seq<T>): (r: seq<T>)
    ensures |r| == |s|
    ensures forall i :: 0 <= i < |s| ==> r[i] == s[|s| - 1 - i]
  {
    if s == [] then [] else Reverse(s[1..]) + [s[0]]
  }

  /** `int.from_bytes(data, byteorder)`: unsigned, at most `8 * |data|`
      bits wide; a little-endian read is the big-endian read of the
      reversed bytes. */
  function FromBytes(data: seq<Byte>, order: ByteOrder): (x: nat)
    ensures x < Pow256(|data|)
    ensures order == Little ==> x == FromBytesBig(Reverse(data))
    ensures order == Big ==> x == FromBytesBig(data)
  {
    match order
    case Big => FromBytesBigBound(data); FromBytesBig(data)
    case Little => FromBytesBigBound(Reverse(data)); FromBytesBig(Reverse(data))
  }

  lemma {:induction false} FromBytesBigBound(s: seq<Byte>)
    ensures FromBytesBig(s) < Pow256(|s|)
  {
    if s != [] {
      FromBytesBigBound(s[..|s| - 1]);
    }
  }

  /** Zero bytes, in either order, are the integer 0. */
  lemma {:induction false} ZeroBytesAreZero(s: seq<Byte>)
    requires forall i :: 0 <= i < |s| ==> s[i] == 0
    ensures FromBytesBig(s) == 0
  {
    if s != [] {
      ZeroBytesAreZero(s[..|s| - 1]);
    }
  }

  /** A leading nonzero byte puts the value in the top byte's range. */
  lemma {:induction false} FromBytesBigLowerBound(s: seq<Byte>)
    requires |s| > 0 && s[0] > 0
    ensures FromBytesBig(s) >= Pow256(|s| - 1)
  {
    if |s| > 1 {
      assert s[..|s| - 1][0] == s[0];
      FromBytesBigLowerBound(s[..|s| - 1]);
    }
  }

  function BitChar(b: nat): char
    requires b < 2
  {
    if b == 0 then '0' else '1'
  }

  predicate IsBitString(s: string) {
    forall i :: 0 <= i < |s| ==> s[i] == '0' || s[i] == '1'
  }

  /** `bin(x)[2:]` for `x >= 0`: most significant bit first, no leading
      zeros, and `"0"` for zero. */
  function ToBinary(x: nat): (r: string)
    ensures |r| >= 1 && IsBitString(r)
    ensures r == "0" <==> x == 0
    ensures x > 0 ==> r[0] == '1'
  {
    if x < 2 then [BitChar(x)] else ToBinary(x / 2) + [BitChar(x % 2)]
  }

  /** Reading a bit string as a binary number (`int(s, 2)`). */
  function ParseBinary(s: string): nat
    requires IsBitString(s)
  {
    if s == [] then 0 else ParseBinary(s[..|s| - 1]) * 2 + (if s[|s| - 1] == '1' then 1 else 0)
  }

  /** Parsing the binary rendering gives the integer back. */
  lemma {:induction false} ParseToBinary(x: nat)
    ensures ParseBinary(ToBinary(x)) == x
  {
    if x >= 2 {
      ParseToBinary(x / 2);
      var r := ToBinary(x);
      assert r[..|r| - 1] == ToBinary(x / 2);
    }
  }

  /** A canonical bit string (`"0"`, or starting with `'1'`) is the rendering
      of its own value. */
  lemma {:induction false} ToBinaryParse(s: string)
    requires |s| >= 1 && IsBitString(s)
    requires s == "0" || s[0] == '1'
    ensures ToBinary(ParseBinary(s)) == s
  {
    if |s| == 1 {
      if s[0] == '1' {
        assert ParseBinary(s) == ParseBinary(s[..0]) * 2 + 1;
      }
    } else {
      var init := s[..|s| - 1];
      assert init[0] == s[0];
      ToBinaryParse(init);
      ParseLeadingOne(init);
      assert s == init + [s[|s| - 1]];
    }
  }

  lemma {:induction false} ParseLeadingOne(s: string)
    requires |s| >= 1 && IsBitString(s) && s[0] == '1'
    ensures ParseBinary(s) >= 1
  {
    if |s| > 1 {
      assert s[..|s| - 1][0] == '1';
      ParseLeadingOne(s[..|s| - 1]);
    }
  }

  /** The rendering of a positive `x` has exactly as many digits as `x` has
      bits: `2^(len-1) <= x < 2^len`. */
  lemma {:induction false} ToBinaryLength(x: nat)
    requires x > 0
    ensures Pow2(|ToBinary(x)| - 1) <= x < Pow2(|ToBinary(x)|)
  {
    if x >= 2 {
      ToBinaryLength(x / 2);
    }
  }

  /** A value below `2^k` renders in at most `k` digits. */
  lemma {:induction false} ToBinaryFits(x: nat, k: nat)
    requires k >= 1 && x < Pow2(k)
    ensures |ToBinary(x)| <= k
  {
    if x >= 2 {
      ToBinaryFits(x / 2, k - 1);
    }
  }

  /** The bit string of a value of `n` bytes has between 1 and `8n` digits. */
  lemma BitStringLength(data: seq<Byte>, order: ByteOrder)
    requires |data| > 0
    ensures 1 <= |ToBinary(FromBytes(data, order))| <= 8 * |data|
  {
    Pow256IsPow2(|data|);
    ToBinaryFits(FromBytes(data, order), 8 * |data|);
  }

  /** `to_bin` and the preamble of both contextual tests: a string is UTF-8
      encoded, bytes are taken as they are, anything else raises
      `TypeError`. */
  function ToBin(data: PyValue, order: ByteOrder): (r: Result<string>)
    ensures r.Failure? <==> data.OtherValue?
    ensures r.Failure? ==> r.error == TypeError
    ensures data.BytesLike? ==> r == Success(ToBinary(FromBytes(data.bytes, order)))
    ensures data.Text? ==> r == Success(ToBinary(FromBytes(Utf8Encode(data.text), order)))
    ensures r.Success? ==> |r.value| >= 1 && IsBitString(r.value)
  {
    match data
    case Text(s) => Success(ToBinary(FromBytes(Utf8Encode(s), order)))
    case BytesLike(b) => Success(ToBinary(FromBytes(b, order)))
    case OtherValue => Failure(TypeError)
  }

  /** Empty and all-zero data render as `"0"`: the leading zeros of the
      integer are lost. */
  lemma ZeroDataIsZeroBit(data: seq<Byte>, order: ByteOrder)
    requires forall i :: 0 <= i < |data| ==> data[i] == 0
    ensures ToBin(BytesLike(data), order) == Success("0")
  {
    ZeroBytesAreZero(data);
    ZeroBytesAreZero(Reverse(data));
  }

  /** A big-endian value whose first byte is nonzero keeps all its bytes:
      the bit string has between `8n - 7` and `8n` digits. */
  lemma LeadingByteFixesLength(data: seq<Byte>)
    requires |data| > 0 && data[0] > 0
    ensures 8 * |data| - 7 <= |ToBinary(FromBytes(data, Big))| <= 8 * |data|
  {
    var x := FromBytes(data, Big);
    FromBytesBigLowerBound(data);
    Pow256IsPow2(|data| - 1);
    BitStringLength(data, Big);
    ToBinaryLength(x);
    var len := |ToBinary(x)|;
    if len < 8 * |data| - 7 {
      Pow2Monotone(len, 8 * (|data| - 1));
      assert false;
    }
  }

  lemma {:induction false} Pow2Monotone(j: nat, k: nat)
    requires j <= k
    ensures Pow2(j) <= Pow2(k)
    decreases k - j
  {
    if j < k {
      Pow2Monotone(j, k - 1);
    }
  }
}
