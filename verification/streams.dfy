/** Files are byte sequences. Reading a file is slicing it: the scripts only
    ever `seek` to an offset and `read` a bounded number of bytes. */
module Streams {
  import opened Common

  /** `f.seek(pos); f.read(bs)` on a file holding `data`: at most `bs` bytes
      starting at `pos`, fewer only when the end of the file is reached, and
      nothing at or past the end (or when `bs` is 0). */
  function Read<T>(data: seq<T>, pos: nat, bs: nat): (r: seq<T>)
    ensures |r| <= bs
    ensures r != [] <==> pos < |data| && bs > 0
    ensures pos <= |data| ==> pos + |r| <= |data| && r == data[pos .. pos + |r|]
    ensures pos + bs <= |data| ==> |r| == bs
    ensures pos <= |data| < pos + bs ==> pos + |r| == |data|
  {
    if pos >= |data| then [] else data[pos .. Min(pos + bs, |data|)]
  }

  /** The non-empty chunks `f.read(bs)` yields, in order, until the first
      empty read ends the loop. */
  function Chunks<T>(data: seq<T>, bs: nat): (r: seq<seq<T>>)
    ensures bs > 0 ==> Flatten(r) == data
    ensures bs == 0 ==> r == []
    ensures forall i :: 0 <= i < |r| ==> 0 < |r[i]| <= bs
    ensures forall i :: 0 <= i < |r| - 1 ==> |r[i]| == bs
    decreases |data|
  {
    var chunk := Read(data, 0, bs);
    if chunk == [] then []
    else
      var rest := Chunks(data[|chunk|..], bs);
      assert ([chunk] + rest)[1..] == rest;
      [chunk] + rest
  }
}
