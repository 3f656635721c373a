/**
  From positions in the torrent to positions in its files
  (rust/bittorrent/storage/src/coord.rs).
 */
module Coordinates {
  import opened Common
  import opened Dimensions

  datatype Error =
    | ExpectNonEmptyFile
    | ExpectNonEmptyFileList
    | InvalidBlockDesc(desc: BlockDesc)
    | InvalidBlockOffset(offset: BlockOffset)

  /** The end of every file, as a block offset. */
  datatype CoordSys = CoordSys(dim: Dimension, fileEnds: seq<BlockOffset>)

  /** A run of bytes in one file. */
  datatype Segment = Segment(file: nat, offset: nat, size: nat)

  /** Where a file starts in the torrent. */
  function FileStart(sizes: seq<nat>, f: nat): nat
    requires f <= |sizes|
  {
    if f == 0 then 0 else FileStart(sizes, f - 1) + sizes[f - 1]
  }

  ghost predicate AllPositive(sizes: seq<nat>) {
    forall k :: 0 <= k < |sizes| ==> sizes[k] > 0
  }

  lemma {:induction false} FileStartIncreases(sizes: seq<nat>, e: nat, f: nat)
    requires e <= f <= |sizes|
    ensures FileStart(sizes, e) <= FileStart(sizes, f)
    ensures AllPositive(sizes) && e < f ==> FileStart(sizes, e) < FileStart(sizes, f)
    decreases f - e
  {
    if e < f {
      FileStartIncreases(sizes, e, f - 1);
    }
  }

  /** `cs` describes files of these sizes. */
  ghost predicate Describes(cs: CoordSys, sizes: seq<nat>) {
    && Valid(cs.dim)
    && sizes != [] && AllPositive(sizes)
    && FileStart(sizes, |sizes|) == cs.dim.size
    && |cs.fileEnds| == |sizes|
    && forall k :: 0 <= k < |sizes| ==> At(cs.fileEnds[k], cs.dim.pieceSize, FileStart(sizes, k + 1))
  }

  /** The offset names the position `s` of the torrent. */
  ghost predicate At(offset: BlockOffset, pieceSize: nat, s: nat) {
    offset.offset < pieceSize && ToScalar(offset, pieceSize) == s
  }

  lemma Advance(offset: BlockOffset, pieceSize: nat, s: nat, n: nat)
    requires At(offset, pieceSize, s)
    ensures At(AddScalar(offset, n, pieceSize), pieceSize, s + n)
  {
    AddScalarAdds(offset, n, pieceSize);
  }

  lemma CompareAt(a: BlockOffset, b: BlockOffset, pieceSize: nat, s: nat, t: nat)
    requires At(a, pieceSize, s) && At(b, pieceSize, t)
    ensures Less(a, b) <==> s < t
    ensures a == b <==> s == t
  {
    OrderIsScalarOrder(a, b, pieceSize);
  }

  /** The total that the constructor asserts, once no file is empty. */
  method NewCoordSys(dim: Dimension, sizes: seq<nat>) returns (r: Result<CoordSys, Error>)
    requires Valid(dim)
    requires sizes != [] && AllPositive(sizes) ==> FileStart(sizes, |sizes|) == dim.size
    ensures r == Err(ExpectNonEmptyFile) <==> !AllPositive(sizes)
    ensures r == Err(ExpectNonEmptyFileList) <==> sizes == []
    ensures r.Ok? <==> sizes != [] && AllPositive(sizes)
    ensures r.Ok? ==> r.value.dim == dim && Describes(r.value, sizes)
  {
    var total := 0;
    var end := BlockOffset(0, 0);
    var ends: seq<BlockOffset> := [];
    for i := 0 to |sizes|
      invariant total == FileStart(sizes, i) && |ends| == i
      invariant At(end, dim.pieceSize, total) && (i > 0 ==> ends[i - 1] == end)
      invariant forall k :: 0 <= k < i ==> sizes[k] > 0
      invariant forall k :: 0 <= k < i ==> At(ends[k], dim.pieceSize, FileStart(sizes, k + 1))
    {
      if sizes[i] == 0 {
        return Err(ExpectNonEmptyFile);
      }
      Advance(end, dim.pieceSize, total, sizes[i]);
      total := total + sizes[i];
      end := AddScalar(end, sizes[i], dim.pieceSize);
      ends := ends + [end];
    }
    if ends == [] {
      return Err(ExpectNonEmptyFileList);
    }
    EndIsSize(dim);
    CompareAt(dim.end, end, dim.pieceSize, dim.size, total);
    assert dim.size == total && dim.end == ends[|ends| - 1];
    return Ok(CoordSys(dim, ends));
  }

  /** The file, among the first `n`, that holds the byte at position `s`. */
  function FileBelow(sizes: seq<nat>, s: nat, n: nat): (f: nat)
    requires n <= |sizes| && s < FileStart(sizes, n)
    ensures f < n && FileStart(sizes, f) <= s < FileStart(sizes, f + 1)
  {
    if FileStart(sizes, n - 1) <= s then n - 1 else FileBelow(sizes, s, n - 1)
  }

  /** The file that holds the byte at position `s`. */
  function FileOf(sizes: seq<nat>, s: nat): nat
    requires s < FileStart(sizes, |sizes|)
  {
    FileBelow(sizes, s, |sizes|)
  }

  lemma FileOfIsUnique(sizes: seq<nat>, s: nat, f: nat)
    requires s < FileStart(sizes, |sizes|)
    requires f < |sizes| && FileStart(sizes, f) <= s < FileStart(sizes, f + 1)
    ensures FileOf(sizes, s) == f
  {
    var g := FileOf(sizes, s);
    if g < f {
      FileStartIncreases(sizes, g + 1, f);
    } else if f < g {
      FileStartIncreases(sizes, f + 1, g);
    }
  }

  /** The binary search over file ends: the number of files that end at or before. */
  method SearchFile(cs: CoordSys, offset: BlockOffset, ghost sizes: seq<nat>, ghost s: nat) returns (f: nat)
    requires Describes(cs, sizes) && At(offset, cs.dim.pieceSize, s)
    ensures f <= |cs.fileEnds| && FileStart(sizes, f) <= s && (f < |sizes| ==> s < FileStart(sizes, f + 1))
  {
    var lo, hi := 0, |cs.fileEnds|;
    while lo < hi
      invariant lo <= hi <= |cs.fileEnds|
      invariant FileStart(sizes, lo) <= s
      invariant hi < |cs.fileEnds| ==> s < FileStart(sizes, hi + 1)
    {
      var mid := (lo + hi) / 2;
      CompareAt(cs.fileEnds[mid], offset, cs.dim.pieceSize, FileStart(sizes, mid + 1), s);
      if cs.fileEnds[mid] == offset {
        if mid + 1 < |sizes| {
          FileStartIncreases(sizes, mid + 1, mid + 2);
        }
        return mid + 1;
      } else if Less(cs.fileEnds[mid], offset) {
        lo := mid + 1;
      } else {
        hi := mid;
      }
    }
    return lo;
  }

  /** None only at the very end of the torrent. */
  method ToFileOffset(cs: CoordSys, offset: BlockOffset, ghost sizes: seq<nat>, ghost s: nat)
      returns (r: Option<(nat, nat)>)
    requires Describes(cs, sizes) && At(offset, cs.dim.pieceSize, s)
    ensures if s < cs.dim.size then r == Some((FileOf(sizes, s), s - FileStart(sizes, FileOf(sizes, s))))
            else r == None
  {
    var ps := cs.dim.pieceSize;
    var f := SearchFile(cs, offset, sizes, s);
    if f == |cs.fileEnds| {
      return None;
    }
    FileStartIncreases(sizes, f + 1, |sizes|);
    FileOfIsUnique(sizes, s, f);
    var start := if f == 0 then BlockOffset(0, 0) else cs.fileEnds[f - 1];
    assert At(start, ps, FileStart(sizes, f));
    return Some((f, ToScalar(offset, ps) - ToScalar(start, ps)));
  }

  /** The part of the `n` bytes from `s` that lies in the file of the first. */
  function FirstSegment(sizes: seq<nat>, s: nat, n: nat): (seg: Segment)
    requires 0 < n && s + n <= FileStart(sizes, |sizes|)
    ensures 0 < seg.size <= n && seg.file < |sizes| && seg.offset + seg.size <= sizes[seg.file]
    ensures FlatStart(sizes, seg) == s
  {
    var f := FileOf(sizes, s);
    Segment(f, s - FileStart(sizes, f), Min(FileStart(sizes, f + 1) - s, n))
  }

  /** The segments that cover the `n` bytes from `s`. */
  function Segments(sizes: seq<nat>, s: nat, n: nat): seq<Segment>
    requires s + n <= FileStart(sizes, |sizes|)
    decreases n
  {
    if n == 0 then []
    else
      var seg := FirstSegment(sizes, s, n);
      [seg] + Segments(sizes, s + seg.size, n - seg.size)
  }

  method ToFileDescs(cs: CoordSys, desc: BlockDesc, ghost sizes: seq<nat>) returns (r: Result<seq<Segment>, Error>)
    requires Describes(cs, sizes)
    ensures r.Ok? <==> CheckBlockDesc(cs.dim, desc)
    ensures r.Err? ==> r.error == InvalidBlockDesc(desc)
    ensures r.Ok? ==>
              && ToScalar(desc.start, cs.dim.pieceSize) + desc.size <= FileStart(sizes, |sizes|)
              && r.value == Segments(sizes, ToScalar(desc.start, cs.dim.pieceSize), desc.size)
  {
    if !CheckBlockDesc(cs.dim, desc) {
      return Err(InvalidBlockDesc(desc));
    }
    CheckedBlockInside(cs.dim, desc);
    var segments := CollectSegments(cs, desc, sizes, ToScalar(desc.start, cs.dim.pieceSize));
    return Ok(segments);
  }

  /** The iterator of the source, run to its end. */
  method CollectSegments(cs: CoordSys, desc: BlockDesc, ghost sizes: seq<nat>, ghost s: nat)
      returns (segments: seq<Segment>)
    requires Describes(cs, sizes) && At(desc.start, cs.dim.pieceSize, s)
    requires s + desc.size <= FileStart(sizes, |sizes|)
    ensures segments == Segments(sizes, s, desc.size)
  {
    var offset, size: nat := desc.start, desc.size;
    ghost var at: nat := s;
    segments := [];
    while size != 0
      invariant At(offset, cs.dim.pieceSize, at) && at + size <= FileStart(sizes, |sizes|)
      invariant segments + Segments(sizes, at, size) == Segments(sizes, s, desc.size)
      decreases size
    {
      var segment := NextSegment(cs, offset, size, sizes, at);
      ghost var rest := Segments(sizes, at + segment.size, size - segment.size);
      assert Segments(sizes, at, size) == [segment] + rest;
      ConcatSegment(segments, segment, rest);
      segments := segments + [segment];
      Advance(offset, cs.dim.pieceSize, at, segment.size);
      offset := AddScalar(offset, segment.size, cs.dim.pieceSize);
      size := size - segment.size;
      at := at + segment.size;
    }
  }

  lemma ConcatSegment(segments: seq<Segment>, segment: Segment, rest: seq<Segment>)
    ensures segments + ([segment] + rest) == segments + [segment] + rest
  {
  }

  /** The part of the block that lies in the file of its first byte. */
  method NextSegment(cs: CoordSys, offset: BlockOffset, size: nat, ghost sizes: seq<nat>, ghost s: nat)
      returns (segment: Segment)
    requires Describes(cs, sizes) && At(offset, cs.dim.pieceSize, s)
    requires size > 0 && s + size <= FileStart(sizes, |sizes|)
    ensures segment == FirstSegment(sizes, s, size)
  {
    var ps := cs.dim.pieceSize;
    var place := ToFileOffset(cs, offset, sizes, s);
    var (f, at) := place.value;
    assert At(cs.fileEnds[f], ps, FileStart(sizes, f + 1));
    segment := Segment(f, at, Min(ToScalar(cs.fileEnds[f], ps) - ToScalar(offset, ps), size));
  }

  /** Where a segment starts in the torrent. */
  ghost function FlatStart(sizes: seq<nat>, seg: Segment): nat
    requires seg.file < |sizes|
  {
    FileStart(sizes, seg.file) + seg.offset
  }

  /** The segments tile the `n` bytes from `s`: none is empty, each lies inside its
      file, each starts where the one before ends, and together they have size `n`. */
  ghost predicate Tiles(sizes: seq<nat>, segs: seq<Segment>, s: nat, n: nat)
    decreases |segs|
  {
    if segs == [] then n == 0
    else
      var seg := segs[0];
      && 0 < seg.size <= n
      && seg.file < |sizes| && seg.offset + seg.size <= sizes[seg.file]
      && FlatStart(sizes, seg) == s
      && Tiles(sizes, segs[1..], s + seg.size, n - seg.size)
  }

  lemma {:induction false} SegmentsTile(sizes: seq<nat>, s: nat, n: nat)
    requires s + n <= FileStart(sizes, |sizes|)
    ensures Tiles(sizes, Segments(sizes, s, n), s, n)
    decreases n
  {
    if n > 0 {
      var seg := FirstSegment(sizes, s, n);
      var rest := Segments(sizes, s + seg.size, n - seg.size);
      SegmentsTile(sizes, s + seg.size, n - seg.size);
      assert ([seg] + rest)[1..] == rest;
    }
  }

  /** No file is touched twice: each segment lies in a later file than the one before. */
  lemma {:induction false} SegmentsInLaterFiles(sizes: seq<nat>, s: nat, n: nat, k: nat)
    requires s + n <= FileStart(sizes, |sizes|) && k + 1 < |Segments(sizes, s, n)|
    ensures Segments(sizes, s, n)[k].file < Segments(sizes, s, n)[k + 1].file
    decreases n
  {
    var seg := FirstSegment(sizes, s, n);
    var rest := Segments(sizes, s + seg.size, n - seg.size);
    assert Segments(sizes, s, n) == [seg] + rest;
    if k > 0 {
      SegmentsInLaterFiles(sizes, s + seg.size, n - seg.size, k - 1);
    } else {
      var next := FirstSegment(sizes, s + seg.size, n - seg.size);
      if next.file <= seg.file {
        FileStartIncreases(sizes, next.file + 1, seg.file + 1);
      }
    }
  }
}
