/** `signature_analysis.py`: counting occurrences of 22 file-format magic
    numbers in a file read in chunks of 256 MiB. `re.finditer` over an
    escaped literal is the leftmost, non-overlapping scan `FindFrom`. */
module Signatures {
  import opened Common
  import opened Streams

  /** The literal `p` occurs in `data` at position `i`. The empty literal
      occurs at every position 0..|data|, the end included. */
  predicate MatchAt(data: seq<Byte>, p: seq<Byte>, i: nat) {
    i + |p| <= |data| && data[i..i + |p|] == p
  }

  /** Position `i` is a returned match or lies strictly inside one. */
  predicate Covered(r: seq<nat>, n: nat, i: nat) {
    exists k :: 0 <= k < |r| && r[k] <= i < r[k] + Max(n, 1)
  }

  /** How far the scan advances past a match at its position: the match
      length, or one for the empty pattern. */
  function Advance(p: seq<Byte>): nat {
    Max(|p|, 1)
  }

  /** The scan of `finditer` from position `from`: a match is reported and
      the scan resumes after it; an empty match advances by one. */
  function FindFrom(data: seq<Byte>, p: seq<Byte>, from: nat): (r: seq<nat>)
    requires from <= |data| + 1
    ensures forall k :: 0 <= k < |r| ==> from <= r[k]
    decreases |data| + 1 - from
  {
    if from > |data| then []
    else if MatchAt(data, p, from) then [from] + FindFrom(data, p, from + Advance(p))
    else FindFrom(data, p, from + 1)
  }

  /** Every reported offset is a match. */
  lemma {:induction false} FindFromMatches(data: seq<Byte>, p: seq<Byte>, from: nat)
    requires from <= |data| + 1
    ensures forall k :: 0 <= k < |FindFrom(data, p, from)| ==> MatchAt(data, p, FindFrom(data, p, from)[k])
    decreases |data| + 1 - from
  {
    if from <= |data| {
      if MatchAt(data, p, from) {
        FindFromMatches(data, p, from + Advance(p));
      } else {
        FindFromMatches(data, p, from + 1);
      }
    }
  }

  /** Reported matches do not overlap. */
  lemma {:induction false} FindFromSpaced(data: seq<Byte>, p: seq<Byte>, from: nat)
    requires from <= |data| + 1
    ensures forall k :: 0 < k < |FindFrom(data, p, from)| ==>
              FindFrom(data, p, from)[k - 1] + Advance(p) <= FindFrom(data, p, from)[k]
    decreases |data| + 1 - from
  {
    if from <= |data| {
      if MatchAt(data, p, from) {
        FindFromSpaced(data, p, from + Advance(p));
      } else {
        FindFromSpaced(data, p, from + 1);
      }
    }
  }

  /** A match at or after `from` is reported or starts inside a reported
      one. */
  lemma {:induction false} FindFromComplete(data: seq<Byte>, p: seq<Byte>, from: nat, i: nat)
    requires from <= |data| + 1
    requires from <= i && MatchAt(data, p, i)
    ensures Covered(FindFrom(data, p, from), |p|, i)
    decreases |data| + 1 - from
  {
    var r := FindFrom(data, p, from);
    if MatchAt(data, p, from) {
      if i < from + Advance(p) {
        assert r[0] == from;
      } else {
        var rest := FindFrom(data, p, from + Advance(p));
        FindFromComplete(data, p, from + Advance(p), i);
        var k :| 0 <= k < |rest| && rest[k] <= i < rest[k] + Max(|p|, 1);
        assert r[k + 1] == rest[k];
      }
    } else {
      assert i != from;
      FindFromComplete(data, p, from + 1, i);
    }
  }

  /** `find_bytes_pattern`: the start offsets of the leftmost,
      non-overlapping occurrences of `pattern`, in increasing order. Every
      occurrence that is not reported starts inside a reported one. */
  function FindBytesPattern(data: seq<Byte>, pattern: seq<Byte>): (r: seq<nat>)
    ensures forall k :: 0 <= k < |r| ==> MatchAt(data, pattern, r[k])
    ensures forall k :: 0 < k < |r| ==> r[k - 1] + Advance(pattern) <= r[k]
    ensures forall i: nat :: MatchAt(data, pattern, i) ==> Covered(r, |pattern|, i)
  {
    FindFromMatches(data, pattern, 0);
    FindFromSpaced(data, pattern, 0);
    forall i: nat | MatchAt(data, pattern, i)
      ensures Covered(FindFrom(data, pattern, 0), |pattern|, i)
    {
      FindFromComplete(data, pattern, 0, i);
    }
    FindFrom(data, pattern, 0)
  }

  /** `pattern` cannot overlap itself: no proper suffix is also a prefix. */
  predicate Borderless(pattern: seq<Byte>) {
    forall s :: 0 < s < |pattern| ==> pattern[s..] != pattern[..|pattern| - s]
  }

  lemma OverlapMeansBorder(data: seq<Byte>, p: seq<Byte>, i: nat, j: nat)
    requires MatchAt(data, p, i) && MatchAt(data, p, j) && i < j < i + |p|
    ensures p[j - i..] == p[..|p| - (j - i)]
  {
    var s := j - i;
    forall t | 0 <= t < |p| - s
      ensures p[s..][t] == p[..|p| - s][t]
    {
      assert p[s + t] == data[i + s + t] == data[j + t] == p[t];
    }
  }

  /** For a pattern that cannot overlap itself, the scan finds every
      occurrence: the reported offsets are exactly the match positions. */
  lemma BorderlessFindsAll(data: seq<Byte>, pattern: seq<Byte>, i: nat)
    requires |pattern| > 0 && Borderless(pattern)
    ensures i in FindBytesPattern(data, pattern) <==> MatchAt(data, pattern, i)
  {
    var r := FindBytesPattern(data, pattern);
    if MatchAt(data, pattern, i) {
      assert Covered(r, |pattern|, i);
      var k :| 0 <= k < |r| && r[k] <= i < r[k] + Max(|pattern|, 1);
      if r[k] < i {
        OverlapMeansBorder(data, pattern, r[k], i);
        assert false;
      }
      assert r[k] == i;
    }
  }

  /** An empty pattern matches at every position, the end included. */
  lemma EmptyPatternEverywhere(data: seq<Byte>, i: nat)
    ensures i in FindBytesPattern(data, []) <==> i <= |data|
  {
    var r := FindBytesPattern(data, []);
    if i in r {
      var k :| 0 <= k < |r| && r[k] == i;
      assert MatchAt(data, [], r[k]);
    }
    if i <= |data| {
      assert MatchAt(data, [], i);
      assert Covered(r, 0, i);
      var k :| 0 <= k < |r| && r[k] <= i < r[k] + Max(0, 1);
      assert r[k] == i;
    }
  }

  /** The table of `perform_signature_analysis`, in its order. */
  datatype Signature =
    | ZipArchive | EmptyZipArchive | SpannedZipArchive | RarArchive | Png
    | JpegQuantizationTable | JpegFileStart | JpegExif | Gif87a | Gif89a
    | Pdf | WaveBwf | Avi | Riff | Id3v2Tag | Id3v1Tag | Ogg | Flac | MidiTrack
    | Tar | Mp4MdatAtom | Mp4TypeAtom
  {
    /** The dictionary key; the quantization-table name ends in a space. */
    function Name(): string {
      match this
      case ZipArchive => "ZIP archive"
      case EmptyZipArchive => "Empty ZIP archive"
      case SpannedZipArchive => "Spanned ZIP archive"
      case RarArchive => "RAR archive"
      case Png => "Portable Network Graphics"
      case JpegQuantizationTable => "JPEG quantization table "
      case JpegFileStart => "JPEG file start"
      case JpegExif => "JPEG Exif data"
      case Gif87a => "GIF version 87a"
      case Gif89a => "GIF version 89a"
      case Pdf => "Portable Document Format"
      case WaveBwf => "Microsoft WAVE/BWF"
      case Avi => "Audio-Video Interleave container"
      case Riff => "Generic RIFF file"
      case Id3v2Tag => "MPEG-1 Audio Layer III ID3v2 tag"
      case Id3v1Tag => "MPEG-1 Audio Layer III ID3v1 tag"
      case Ogg => "OGG File"
      case Flac => "Free Lossless Audio Codec"
      case MidiTrack => "MIDI track"
      case Tar => "TAR (Tape Archive)"
      case Mp4MdatAtom => "MPEG-4 Part 14 top-level mdat atom"
      case Mp4TypeAtom => "MPEG-4 Part 14 type atom"
    }

    /** The entry's place in the dictionary's key order. */
    function Position(): nat {
      match this
      case ZipArchive => 0
      case EmptyZipArchive => 1
      case SpannedZipArchive => 2
      case RarArchive => 3
      case Png => 4
      case JpegQuantizationTable => 5
      case JpegFileStart => 6
      case JpegExif => 7
      case Gif87a => 8
      case Gif89a => 9
      case Pdf => 10
      case WaveBwf => 11
      case Avi => 12
      case Riff => 13
      case Id3v2Tag => 14
      case Id3v1Tag => 15
      case Ogg => 16
      case Flac => 17
      case MidiTrack => 18
      case Tar => 19
      case Mp4MdatAtom => 20
      case Mp4TypeAtom => 21
    }

    /** The magic bytes searched for. */
    function Pattern(): seq<Byte> {
      match this
      case ZipArchive => [0x50, 0x4b, 0x03, 0x04]
      case EmptyZipArchive => [0x50, 0x4b, 0x05, 0x06]
      case SpannedZipArchive => [0x50, 0x4b, 0x07, 0x08]
      case RarArchive => [0x52, 0x61, 0x72, 0x21, 0x1a, 0x07]
      case Png => [0x89, 0x50, 0x4e, 0x47, 0x0d, 0x0a, 0x1a, 0x0a]
      case JpegQuantizationTable => [0xff, 0xd8, 0xff, 0xdb]
      case JpegFileStart => [0xff, 0xd8, 0xff, 0xe0]
      case JpegExif => [0xff, 0xd8, 0xff, 0xe1]
      case Gif87a => [0x47, 0x49, 0x46, 0x38, 0x37, 0x61]
      case Gif89a => [0x47, 0x49, 0x46, 0x38, 0x39, 0x61]
      case Pdf => [0x25, 0x50, 0x44, 0x46, 0x2d]
      case WaveBwf => [0x57, 0x41, 0x56, 0x45]
      case Avi => [0x41, 0x56, 0x49, 0x20]
      case Riff => [0x52, 0x49, 0x46, 0x46]
      case Id3v2Tag => [0x49, 0x44, 0x33]
      case Id3v1Tag => [0x54, 0x41, 0x47]
      case Ogg => [0x4f, 0x67, 0x67, 0x53]
      case Flac => [0x66, 0x4c, 0x61, 0x43]
      case MidiTrack => [0x4d, 0x54, 0x68, 0x64]
      case Tar => [0x75, 0x73, 0x74, 0x61, 0x72]
      case Mp4MdatAtom => [0x6d, 0x64, 0x61, 0x74]
      case Mp4TypeAtom => [0x66, 0x74, 0x79, 0x70]
    }
  }

  const TableOrder: seq<Signature> := [
    ZipArchive, EmptyZipArchive, SpannedZipArchive, RarArchive, Png,
    JpegQuantizationTable, JpegFileStart, JpegExif, Gif87a, Gif89a,
    Pdf, WaveBwf, Avi, Riff, Id3v2Tag, Id3v1Tag, Ogg, Flac, MidiTrack,
    Tar, Mp4MdatAtom, Mp4TypeAtom]

  /** Each entry of the table order sits at its own position. */
  lemma TablePositions()
    ensures forall i :: 0 <= i < |TableOrder| ==> TableOrder[i].Position() == i
  {
  }

  /** Every table entry appears exactly once in the table order, at its
      position, as the keys of a dictionary do. */
  lemma TableComplete(s: Signature)
    ensures s in TableOrder
    ensures forall i :: 0 <= i < |TableOrder| ==> (TableOrder[i] == s <==> i == s.Position())
  {
    TablePositions();
    assert TableOrder[s.Position()] == s;
  }

  /** The read size `256*1024*1024`. */
  const ChunkSize: nat := 268435456

  /** Occurrences of `pattern` counted chunk by chunk. */
  function CountInChunks(chunks: seq<seq<Byte>>, pattern: seq<Byte>): nat {
    if chunks == [] then 0
    else |FindBytesPattern(chunks[0], pattern)| + CountInChunks(chunks[1..], pattern)
  }

  /** One pass of the inner loop: every entry's counter grows by the number
      of matches of its pattern in `chunk`. */
  function AddChunk<K>(found: map<K, nat>, pattern: K -> seq<Byte>, chunk: seq<Byte>): (r: map<K, nat>)
    ensures r.Keys == found.Keys
    ensures forall k :: k in found ==> r[k] == found[k] + |FindBytesPattern(chunk, pattern(k))|
  {
    map k | k in found :: found[k] + |FindBytesPattern(chunk, pattern(k))|
  }

  /** `perform_signature_analysis`: every table entry starts at 0 and
      receives, for each 256 MiB chunk, the number of matches found inside
      that chunk. The function returns this dictionary. */
  method PerformSignatureAnalysis(file: seq<Byte>) returns (found: map<Signature, nat>)
    ensures forall s: Signature :: s in found
    ensures forall s :: s in found ==> found[s] == CountInChunks(Chunks(file, ChunkSize), s.Pattern())
  {
    var initial := map s | s in TableOrder :: 0;
    forall s: Signature
      ensures s in initial
    {
      TableComplete(s);
    }
    found := CountByChunks(file, initial, (s: Signature) => s.Pattern());
  }

  /** The read loop of `perform_signature_analysis` for a table whose entry
      `k` searches for `pattern(k)`: each chunk's matches are added to the
      counters it starts from. */
  method CountByChunks<K>(file: seq<Byte>, initial: map<K, nat>, pattern: K -> seq<Byte>)
    returns (found: map<K, nat>)
    ensures found.Keys == initial.Keys
    ensures forall k :: k in found ==>
              found[k] == initial[k] + CountInChunks(Chunks(file, ChunkSize), pattern(k))
  {
    found := initial;
    var pos: nat := 0;
    while true
      invariant pos <= |file|
      invariant found.Keys == initial.Keys
      invariant CountedBefore(file, pos, initial, pattern, found)
      decreases |file| - pos
    {
      var chunk := Read(file, pos, ChunkSize);
      if chunk == [] {
        assert file[pos..] == [];
        break;
      }
      CountedStep(file, pos, initial, pattern, found);
      found, pos := AddChunk(found, pattern, chunk), pos + |chunk|;
    }
  }

  /** The loop's invariant: each entry holds its initial value plus the
      matches in the chunks before `pos`, which with the matches in the
      chunks from `pos` on make up the total. */
  predicate CountedBefore<K>(file: seq<Byte>, pos: nat, initial: map<K, nat>, pattern: K -> seq<Byte>,
                             found: map<K, nat>)
    requires pos <= |file|
  {
    forall k :: k in found && k in initial ==>
      found[k] + CountInChunks(Chunks(file[pos..], ChunkSize), pattern(k))
      == initial[k] + CountInChunks(Chunks(file, ChunkSize), pattern(k))
  }

  lemma CountedStep<K>(file: seq<Byte>, pos: nat, initial: map<K, nat>, pattern: K -> seq<Byte>,
                       found: map<K, nat>)
    requires pos < |file| && CountedBefore(file, pos, initial, pattern, found)
    ensures var chunk := Read(file, pos, ChunkSize);
            CountedBefore(file, pos + |chunk|, initial, pattern, AddChunk(found, pattern, chunk))
  {
    ChunksStep(file, pos);
  }

  /** The count over `file[pos..]` is the count in the chunk read at `pos`
      plus the count over the rest. */
  lemma ChunksStep(file: seq<Byte>, pos: nat)
    requires pos < |file|
    ensures var c := Read(file, pos, ChunkSize);
            forall p :: CountInChunks(Chunks(file[pos..], ChunkSize), p)
                        == |FindBytesPattern(c, p)| + CountInChunks(Chunks(file[pos + |c|..], ChunkSize), p)
  {
    var tail := file[pos..];
    var c := Read(file, pos, ChunkSize);
    assert c == tail[..Min(ChunkSize, |tail|)];
    assert tail[|c|..] == file[pos + |c|..];
    var rest := Chunks(file[pos + |c|..], ChunkSize);
    assert Chunks(tail, ChunkSize) == [c] + rest;
    assert ([c] + rest)[1..] == rest;
  }

  lemma {:induction false} NoMatchNothingFound(data: seq<Byte>, p: seq<Byte>, from: nat)
    requires from <= |data| + 1 && |p| > 0
    requires forall i: nat :: from <= i ==> !MatchAt(data, p, i)
    ensures FindFrom(data, p, from) == []
    decreases |data| + 1 - from
  {
    if from <= |data| {
      NoMatchNothingFound(data, p, from + 1);
    }
  }

  /** A pattern whose first byte does not recur cannot overlap itself. */
  lemma FirstByteUniqueBorderless(pattern: seq<Byte>)
    requires forall j :: 0 < j < |pattern| ==> pattern[j] != pattern[0]
    ensures Borderless(pattern)
  {
    forall shift | 0 < shift < |pattern|
      ensures pattern[shift..] != pattern[..|pattern| - shift]
    {
      assert pattern[shift..][0] != pattern[..|pattern| - shift][0];
    }
  }

  /** A pattern whose last byte does not occur earlier cannot overlap itself. */
  lemma LastByteUniqueBorderless(pattern: seq<Byte>)
    requires forall j :: 0 <= j < |pattern| - 1 ==> pattern[j] != pattern[|pattern| - 1]
    ensures Borderless(pattern)
  {
    forall shift | 0 < shift < |pattern|
      ensures pattern[shift..] != pattern[..|pattern| - shift]
    {
      var m := |pattern| - shift;
      assert pattern[shift..][m - 1] != pattern[..m][m - 1];
    }
  }

  /** None of the 22 magic numbers can overlap itself (the JPEG ones repeat
      their first byte but end in a byte of their own). */
  lemma TablePatternsBorderless(s: Signature)
    ensures |s.Pattern()| > 0 && Borderless(s.Pattern())
  {
    match s
    case JpegQuantizationTable => LastByteUniqueBorderless(s.Pattern());
    case JpegFileStart => LastByteUniqueBorderless(s.Pattern());
    case JpegExif => LastByteUniqueBorderless(s.Pattern());
    case _ => FirstByteUniqueBorderless(s.Pattern());
  }

  /** A file no longer than one read is one chunk, and for every table entry
      the count is the number of all its occurrences in the file. */
  lemma {:induction false} SingleChunkCountsEveryOccurrence(file: seq<Byte>, s: Signature, i: nat)
    requires 0 < |file| <= ChunkSize
    ensures CountInChunks(Chunks(file, ChunkSize), s.Pattern()) == |FindBytesPattern(file, s.Pattern())|
    ensures i in FindBytesPattern(file, s.Pattern()) <==> MatchAt(file, s.Pattern(), i)
  {
    assert Read(file, 0, ChunkSize) == file;
    assert file[|file|..] == [];
    assert Chunks(file, ChunkSize) == [file];
    TablePatternsBorderless(s);
    BorderlessFindsAll(file, s.Pattern(), i);
  }

  /** The chunks are searched separately, so a magic number that straddles
      a 256 MiB boundary is not counted: an ID3v2 tag starting at the last
      byte of the first chunk is present in the file, yet counted 0 times. */
  lemma BoundaryOccurrenceMissed()
    ensures var file := seq(ChunkSize - 1, _ => 0) + Id3v2Tag.Pattern();
            && MatchAt(file, Id3v2Tag.Pattern(), ChunkSize - 1)
            && CountInChunks(Chunks(file, ChunkSize), Id3v2Tag.Pattern()) == 0
  {
    var p := Id3v2Tag.Pattern();
    var file := seq(ChunkSize - 1, _ => 0) + p;
    assert file[ChunkSize - 1..ChunkSize + 2] == p;
    var first, second := file[..ChunkSize], file[ChunkSize..];
    assert second == [0x44, 0x33];
    assert Read(file, 0, ChunkSize) == first;
    assert Read(second, 0, ChunkSize) == second;
    assert second[|second|..] == [];
    assert Chunks(second, ChunkSize) == [second];
    assert Chunks(file, ChunkSize) == [first, second];
    forall i: nat
      ensures !MatchAt(first, p, i)
    {
      if i + 3 <= |first| {
        assert first[i] == 0;
        assert first[i..i + 3][0] != p[0];
      }
    }
    NoMatchNothingFound(first, p, 0);
    NoMatchNothingFound(second, p, 0);
    assert [first, second][1..] == [second];
    assert CountInChunks([second], p) == 0 by {
      assert [second][1..] == [];
    }
  }

  /** The number of positions in `[lo, hi)` at which `p` occurs in `data`. */
  function Occurrences(data: seq<Byte>, p: seq<Byte>, lo: nat, hi: nat): nat
    decreases hi - lo
  {
    if hi <= lo then 0
    else (if MatchAt(data, p, lo) then 1 else 0) + Occurrences(data, p, lo + 1, hi)
  }

  /** An occurrence of length `n` at `i` lies inside one read of size `c`:
      its first and its last byte fall in the same chunk. */
  predicate InsideChunk(i: nat, n: nat, c: nat)
    requires c > 0
  {
    i / c == (i + n - 1) / c
  }

  /** The number of positions in `[lo, hi)` at which `p` occurs in `data`
      without crossing a multiple of `c`. */
  function InsideOccurrences(data: seq<Byte>, p: seq<Byte>, c: nat, lo: nat, hi: nat): nat
    requires c > 0
    decreases hi - lo
  {
    if hi <= lo then 0
    else (if MatchAt(data, p, lo) && InsideChunk(lo, |p|, c) then 1 else 0)
         + InsideOccurrences(data, p, c, lo + 1, hi)
  }

  lemma {:induction false} OccurrencesSplit(data: seq<Byte>, p: seq<Byte>, lo: nat, mid: nat, hi: nat)
    requires lo <= mid <= hi
    ensures Occurrences(data, p, lo, hi) == Occurrences(data, p, lo, mid) + Occurrences(data, p, mid, hi)
    decreases mid - lo
  {
    if lo < mid {
      OccurrencesSplit(data, p, lo + 1, mid, hi);
    }
  }

  lemma {:induction false} InsideSplit(data: seq<Byte>, p: seq<Byte>, c: nat, lo: nat, mid: nat, hi: nat)
    requires c > 0 && lo <= mid <= hi
    ensures InsideOccurrences(data, p, c, lo, hi)
            == InsideOccurrences(data, p, c, lo, mid) + InsideOccurrences(data, p, c, mid, hi)
    decreases mid - lo
  {
    if lo < mid {
      InsideSplit(data, p, c, lo + 1, mid, hi);
    }
  }

  lemma {:induction false} NoOccurrences(data: seq<Byte>, p: seq<Byte>, lo: nat, hi: nat)
    requires forall i: nat :: lo <= i < hi ==> !MatchAt(data, p, i)
    ensures Occurrences(data, p, lo, hi) == 0
    decreases hi - lo
  {
    if lo < hi {
      NoOccurrences(data, p, lo + 1, hi);
    }
  }

  /** For a pattern that cannot overlap itself the scan from `from` reports
      one offset per occurrence at or after `from`. */
  lemma {:induction false} FindFromCountsAll(data: seq<Byte>, p: seq<Byte>, from: nat)
    requires |p| > 0 && Borderless(p) && from <= |data| + 1
    ensures |FindFrom(data, p, from)| == Occurrences(data, p, from, |data| + 1)
    decreases |data| + 1 - from
  {
    if from <= |data| {
      if MatchAt(data, p, from) {
        var next := from + |p|;
        forall i: nat | from + 1 <= i < next
          ensures !MatchAt(data, p, i)
        {
          if MatchAt(data, p, i) {
            OverlapMeansBorder(data, p, from, i);
            assert false;
          }
        }
        NoOccurrences(data, p, from + 1, next);
        OccurrencesSplit(data, p, from + 1, next, |data| + 1);
        FindFromCountsAll(data, p, next);
      } else {
        FindFromCountsAll(data, p, from + 1);
      }
    }
  }

  /** For a pattern that cannot overlap itself, `len(find_bytes_pattern(...))`
      is the number of its occurrences. */
  lemma BorderlessCountsAll(data: seq<Byte>, p: seq<Byte>)
    requires |p| > 0 && Borderless(p)
    ensures |FindBytesPattern(data, p)| == Occurrences(data, p, 0, |data|)
  {
    FindFromCountsAll(data, p, 0);
    OccurrencesSplit(data, p, 0, |data|, |data| + 1);
  }

  /** Euclidean division is unique: a multiple of `c` strictly between
      `-c` and `c` is zero. */
  lemma SmallMultiple(c: int, k: int)
    requires c > 0 && -c < c * k < c
    ensures k == 0
  {
  }

  lemma DivisionBelow(x: int, c: nat)
    requires c > 0 && 0 <= x
    ensures x / c == 0 <==> x < c
  {
    var q, r := x / c, x % c;
    if x < c {
      SmallMultiple(c, q);
    }
  }

  lemma DivisionShift(x: int, c: nat)
    requires c > 0
    ensures (x + c) / c == x / c + 1
  {
    var q, r := x / c, x % c;
    var q', r' := (x + c) / c, (x + c) % c;
    assert c * (q' - q - 1) == r - r';
    SmallMultiple(c, q' - q - 1);
  }

  /** The first read, `file[..m]`: its occurrences are those in the file
      that end before `m`, which are those inside the first chunk. */
  lemma {:induction false} FirstChunkOccurrences(file: seq<Byte>, p: seq<Byte>, c: nat, m: nat, lo: nat)
    requires c > 0 && |p| > 0 && m == Min(c, |file|) && lo <= m
    ensures Occurrences(file[..m], p, lo, m) == InsideOccurrences(file, p, c, lo, m)
    decreases m - lo
  {
    if lo < m {
      DivisionBelow(lo, c);
      DivisionBelow(lo + |p| - 1, c);
      if MatchAt(file, p, lo) && InsideChunk(lo, |p|, c) {
        assert file[..m][lo..lo + |p|] == file[lo..lo + |p|];
      }
      if MatchAt(file[..m], p, lo) {
        assert file[..m][lo..lo + |p|] == file[lo..lo + |p|];
      }
      FirstChunkOccurrences(file, p, c, m, lo + 1);
    }
  }

  /** Past the first read, positions and chunk numbers shift by one chunk. */
  lemma {:induction false} LaterChunkOccurrences(file: seq<Byte>, p: seq<Byte>, c: nat, lo: nat, hi: nat)
    requires 0 < c <= |file|
    ensures InsideOccurrences(file, p, c, c + lo, c + hi) == InsideOccurrences(file[c..], p, c, lo, hi)
    decreases hi - lo
  {
    if lo < hi {
      DivisionShift(lo, c);
      DivisionShift(lo + |p| - 1, c);
      assert InsideChunk(c + lo, |p|, c) == InsideChunk(lo, |p|, c);
      if c + lo + |p| <= |file| {
        assert file[c + lo..c + lo + |p|] == file[c..][lo..lo + |p|];
      }
      assert MatchAt(file, p, c + lo) == MatchAt(file[c..], p, lo);
      LaterChunkOccurrences(file, p, c, lo + 1, hi);
    }
  }

  /** Searching each read of size `c` on its own counts exactly the
      occurrences that do not cross a multiple of `c`. */
  lemma {:induction false} ChunkedCountIsInsideCount(file: seq<Byte>, p: seq<Byte>, c: nat)
    requires c > 0 && |p| > 0 && Borderless(p)
    ensures CountInChunks(Chunks(file, c), p) == InsideOccurrences(file, p, c, 0, |file|)
    decreases |file|
  {
    if |file| > 0 {
      var m := Min(c, |file|);
      var chunk := Read(file, 0, c);
      assert chunk == file[..m];
      var rest := file[m..];
      var later := Chunks(rest, c);
      assert Chunks(file, c) == [chunk] + later;
      assert ([chunk] + later)[1..] == later;
      BorderlessCountsAll(chunk, p);
      FirstChunkOccurrences(file, p, c, m, 0);
      ChunkedCountIsInsideCount(rest, p, c);
      if m == c {
        LaterChunkOccurrences(file, p, c, 0, |file| - c);
        InsideSplit(file, p, c, 0, c, |file|);
      } else {
        assert rest == [];
      }
    }
  }

  /** `perform_signature_analysis` reports, for every table entry, exactly
      the number of occurrences of its magic number that lie wholly inside
      one 256 MiB chunk. */
  lemma CountsOccurrencesInsideChunks(file: seq<Byte>, s: Signature)
    ensures CountInChunks(Chunks(file, ChunkSize), s.Pattern())
            == InsideOccurrences(file, s.Pattern(), ChunkSize, 0, |file|)
  {
    TablePatternsBorderless(s);
    ChunkedCountIsInsideCount(file, s.Pattern(), ChunkSize);
  }
}
