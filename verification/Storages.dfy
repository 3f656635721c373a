/**
  Storage over several files and over one file
  (rust/bittorrent/storage/src/file.rs, single.rs): the first refines the second.

  A file is its bytes.  Seeking is not modelled, except for the cursor of the single
  file, on which its scan relies.
 */
module Storages {
  import opened Sorting
  import opened Coordinates

  type byte = n: int | 0 <= n < 256

  type Hash = nat

  // ---- The flat view ----

  function Splice(data: seq<byte>, s: nat, bytes: seq<byte>): seq<byte>
    requires s + |bytes| <= |data|
  {
    data[..s] + bytes + data[s + |bytes|..]
  }

  ghost predicate Sized(files: seq<seq<byte>>, sizes: seq<nat>) {
    |files| == |sizes| && forall k :: 0 <= k < |files| ==> |files[k]| == sizes[k]
  }

  lemma {:induction false} FlatLength(files: seq<seq<byte>>, sizes: seq<nat>, f: nat)
    requires Sized(files, sizes) && f <= |files|
    ensures |Flatten(files[..f])| == FileStart(sizes, f)
  {
    if f > 0 {
      FlatLength(files, sizes, f - 1);
      assert files[..f] == files[..f - 1] + [files[f - 1]];
      FlattenConcat(files[..f - 1], [files[f - 1]]);
      assert Flatten([files[f - 1]]) == files[f - 1];
    }
  }

  lemma WholeLength(files: seq<seq<byte>>, sizes: seq<nat>)
    requires Sized(files, sizes)
    ensures |Flatten(files)| == FileStart(sizes, |sizes|)
  {
    FlatLength(files, sizes, |files|);
    assert files[..|files|] == files;
  }

  // The torrent around one file.
  lemma AroundFile(files: seq<seq<byte>>, f: nat)
    requires f < |files|
    ensures Flatten(files) == Flatten(files[..f]) + (files[f] + Flatten(files[f + 1..]))
  {
    FlattenConcat(files[..f], files[f..]);
    assert files == files[..f] + files[f..];
    assert files[f..][1..] == files[f + 1..];
  }

  function SegmentBytes(files: seq<seq<byte>>, seg: Segment): seq<byte>
    requires seg.file < |files| && seg.offset + seg.size <= |files[seg.file]|
  {
    files[seg.file][seg.offset..seg.offset + seg.size]
  }

  function WriteSegment(files: seq<seq<byte>>, seg: Segment, bytes: seq<byte>): seq<seq<byte>>
    requires seg.file < |files| && seg.offset + seg.size <= |files[seg.file]| && |bytes| == seg.size
  {
    files[seg.file := Splice(files[seg.file], seg.offset, bytes)]
  }

  lemma MiddleSlice(a: seq<byte>, m: seq<byte>, b: seq<byte>, i: nat, j: nat)
    requires i <= j <= |m|
    ensures (a + (m + b))[|a| + i..|a| + j] == m[i..j]
  {
  }

  lemma MiddleSplice(a: seq<byte>, m: seq<byte>, b: seq<byte>, i: nat, bytes: seq<byte>)
    requires i + |bytes| <= |m|
    ensures Splice(a + (m + b), |a| + i, bytes) == a + (Splice(m, i, bytes) + b)
  {
    var whole := a + (m + b);
    assert whole[..|a| + i] == a + m[..i];
    assert whole[|a| + i + |bytes|..] == m[i + |bytes|..] + b;
  }

  /** Reading a segment of a file is reading a slice of the torrent. */
  lemma SegmentIsFlat(files: seq<seq<byte>>, sizes: seq<nat>, seg: Segment)
    requires Sized(files, sizes)
    requires seg.file < |sizes| && seg.offset + seg.size <= sizes[seg.file]
    ensures FlatStart(sizes, seg) + seg.size <= |Flatten(files)|
    ensures SegmentBytes(files, seg) == Flatten(files)[FlatStart(sizes, seg)..FlatStart(sizes, seg) + seg.size]
  {
    var f := seg.file;
    FlatLength(files, sizes, f);
    AroundFile(files, f);
    MiddleSlice(Flatten(files[..f]), files[f], Flatten(files[f + 1..]), seg.offset, seg.offset + seg.size);
  }

  /** Writing a segment of a file is splicing the torrent. */
  lemma WriteSegmentIsFlat(files: seq<seq<byte>>, sizes: seq<nat>, seg: Segment, bytes: seq<byte>)
    requires Sized(files, sizes) && |bytes| == seg.size
    requires seg.file < |sizes| && seg.offset + seg.size <= sizes[seg.file]
    ensures Sized(WriteSegment(files, seg, bytes), sizes)
    ensures FlatStart(sizes, seg) + seg.size <= |Flatten(files)|
    ensures Flatten(WriteSegment(files, seg, bytes)) == Splice(Flatten(files), FlatStart(sizes, seg), bytes)
  {
    var f := seg.file;
    FlatLength(files, sizes, f);
    AroundFile(files, f);
    ReplacedFile(files, f, Splice(files[f], seg.offset, bytes));
    MiddleSplice(Flatten(files[..f]), files[f], Flatten(files[f + 1..]), seg.offset, bytes);
  }

  lemma ReplacedFile(files: seq<seq<byte>>, f: nat, file: seq<byte>)
    requires f < |files|
    ensures Flatten(files[f := file]) == Flatten(files[..f]) + (file + Flatten(files[f + 1..]))
  {
    var files' := files[f := file];
    AroundFile(files', f);
    assert files'[..f] == files[..f] && files'[f + 1..] == files[f + 1..];
  }

  // ---- Blocks over several files ----

  ghost predicate Fits(segs: seq<Segment>, files: seq<seq<byte>>) {
    forall k :: 0 <= k < |segs| ==> segs[k].file < |files| && segs[k].offset + segs[k].size <= |files[segs[k].file]|
  }

  lemma {:induction false} TilesFit(files: seq<seq<byte>>, sizes: seq<nat>, segs: seq<Segment>, s: nat, n: nat)
    requires Sized(files, sizes) && Tiles(sizes, segs, s, n)
    ensures Fits(segs, files)
    decreases |segs|
  {
    if segs != [] {
      TilesFit(files, sizes, segs[1..], s + segs[0].size, n - segs[0].size);
      assert forall k :: 0 < k < |segs| ==> segs[k] == segs[1..][k - 1];
    }
  }

  ghost function ReadAll(files: seq<seq<byte>>, segs: seq<Segment>): seq<byte>
    requires Fits(segs, files)
  {
    if segs == [] then [] else SegmentBytes(files, segs[0]) + ReadAll(files, segs[1..])
  }

  lemma AdjacentSlices(data: seq<byte>, a: nat, b: nat, c: nat)
    requires a <= b <= c <= |data|
    ensures data[a..b] + data[b..c] == data[a..c]
  {
  }

  /** Reading the segments of a block, file by file, is reading the torrent. */
  lemma {:induction false} ReadAllIsFlat(files: seq<seq<byte>>, sizes: seq<nat>, segs: seq<Segment>, s: nat, n: nat)
    requires Sized(files, sizes) && Tiles(sizes, segs, s, n)
    requires s + n <= FileStart(sizes, |sizes|)
    ensures Fits(segs, files) && s + n <= |Flatten(files)|
    ensures ReadAll(files, segs) == Flatten(files)[s..s + n]
    decreases |segs|
  {
    TilesFit(files, sizes, segs, s, n);
    WholeLength(files, sizes);
    if segs == [] {
      assert Flatten(files)[s..s + n] == [];
    } else {
      var seg := segs[0];
      SegmentIsFlat(files, sizes, seg);
      ReadAllIsFlat(files, sizes, segs[1..], s + seg.size, n - seg.size);
      assert ReadAll(files, segs) == SegmentBytes(files, seg) + ReadAll(files, segs[1..]);
      AdjacentSlices(Flatten(files), s, s + seg.size, s + n);
    }
  }

  /** The files after the segments of a block have been written in order. */
  ghost function WriteAll(files: seq<seq<byte>>, sizes: seq<nat>, segs: seq<Segment>, s: nat, data: seq<byte>)
      : seq<seq<byte>>
    requires Sized(files, sizes) && Tiles(sizes, segs, s, |data|)
    decreases |segs|
  {
    if segs == [] then files
    else
      var seg := segs[0];
      WriteSegmentIsFlat(files, sizes, seg, data[..seg.size]);
      WriteAll(WriteSegment(files, seg, data[..seg.size]), sizes, segs[1..], s + seg.size, data[seg.size..])
  }

  // One segment of a write, taken from the front of a buffer.
  lemma WriteAllStep(files: seq<seq<byte>>, sizes: seq<nat>, segs: seq<Segment>, s: nat, buffer: seq<byte>, n: nat)
    requires Sized(files, sizes) && Tiles(sizes, segs, s, n) && n <= |buffer| && segs != []
    ensures var size := segs[0].size;
            && size <= n
            && segs[0].file < |files| && segs[0].offset + size <= |files[segs[0].file]|
            && var files', buffer' := WriteSegment(files, segs[0], buffer[..size]), buffer[size..];
            && Sized(files', sizes) && Tiles(sizes, segs[1..], s + size, n - size)
            && WriteAll(files, sizes, segs, s, buffer[..n])
               == WriteAll(files', sizes, segs[1..], s + size, buffer'[..n - size])
  {
    var size := segs[0].size;
    WriteSegmentIsFlat(files, sizes, segs[0], buffer[..size]);
    assert buffer[..n][..size] == buffer[..size];
    assert buffer[..n][size..] == buffer[size..][..n - size];
  }

  lemma SpliceTwice(data: seq<byte>, s: nat, a: seq<byte>, b: seq<byte>)
    requires s + |a| + |b| <= |data|
    ensures Splice(Splice(data, s, a), s + |a|, b) == Splice(data, s, a + b)
  {
    var once := Splice(data, s, a);
    assert once[..s + |a|] == data[..s] + a;
    assert once[s + |a| + |b|..] == data[s + |a| + |b|..];
  }

  /** Writing a block, file by file, is splicing the torrent. */
  lemma {:induction false} WriteAllIsFlat(files: seq<seq<byte>>, sizes: seq<nat>, segs: seq<Segment>, s: nat,
                                          data: seq<byte>)
    requires Sized(files, sizes) && Tiles(sizes, segs, s, |data|)
    requires s + |data| <= FileStart(sizes, |sizes|)
    ensures s + |data| <= |Flatten(files)|
    ensures Sized(WriteAll(files, sizes, segs, s, data), sizes)
    ensures Flatten(WriteAll(files, sizes, segs, s, data)) == Splice(Flatten(files), s, data)
    decreases |segs|
  {
    WholeLength(files, sizes);
    if segs == [] {
      assert Splice(Flatten(files), s, data) == Flatten(files);
    } else {
      var seg := segs[0];
      var now, later := data[..seg.size], data[seg.size..];
      WriteSegmentIsFlat(files, sizes, seg, now);
      WriteAllIsFlat(WriteSegment(files, seg, now), sizes, segs[1..], s + seg.size, later);
      SpliceTwice(Flatten(files), s, now, later);
      assert now + later == data;
    }
  }

  /** The two facts above for the segments the coordinate system computes. */
  lemma BlockReadIsFlat(files: seq<seq<byte>>, sizes: seq<nat>, s: nat, n: nat)
    requires Sized(files, sizes) && s + n <= FileStart(sizes, |sizes|)
    ensures Fits(Segments(sizes, s, n), files) && s + n <= |Flatten(files)|
    ensures ReadAll(files, Segments(sizes, s, n)) == Flatten(files)[s..s + n]
  {
    SegmentsTile(sizes, s, n);
    ReadAllIsFlat(files, sizes, Segments(sizes, s, n), s, n);
  }

  lemma BlockWriteIsFlat(files: seq<seq<byte>>, sizes: seq<nat>, s: nat, data: seq<byte>)
    requires Sized(files, sizes) && s + |data| <= FileStart(sizes, |sizes|)
    ensures Tiles(sizes, Segments(sizes, s, |data|), s, |data|) && s + |data| <= |Flatten(files)|
    ensures Sized(WriteAll(files, sizes, Segments(sizes, s, |data|), s, data), sizes)
    ensures Flatten(WriteAll(files, sizes, Segments(sizes, s, |data|), s, data)) == Splice(Flatten(files), s, data)
  {
    SegmentsTile(sizes, s, |data|);
    WriteAllIsFlat(files, sizes, Segments(sizes, s, |data|), s, data);
  }

  // ---- Empty files ----

  function NonEmpty(files: seq<seq<byte>>): seq<seq<byte>> {
    if files == [] then []
    else (if files[0] == [] then [] else [files[0]]) + NonEmpty(files[1..])
  }

  /** Files of size zero are created but never opened for storage: leaving them out
      does not change the torrent. */
  lemma {:induction false} EmptyFilesDoNotMatter(files: seq<seq<byte>>)
    ensures Flatten(NonEmpty(files)) == Flatten(files)
  {
    if files != [] {
      EmptyFilesDoNotMatter(files[1..]);
      var rest := NonEmpty(files[1..]);
      if files[0] == [] {
        assert NonEmpty(files) == rest && files[0] + Flatten(files[1..]) == Flatten(files[1..]);
      } else {
        assert ([files[0]] + rest)[1..] == rest;
      }
    }
  }

  /** All the files of the torrent, with the opened ones among them. */
  function WithEmpty(files: seq<seq<byte>>, inUse: seq<seq<byte>>): seq<seq<byte>>
    requires |inUse| == |NonEmpty(files)|
  {
    if files == [] then []
    else if files[0] == [] then [[]] + WithEmpty(files[1..], inUse)
    else [inUse[0]] + WithEmpty(files[1..], inUse[1..])
  }

  /** So whatever is written to the opened files, the files of the torrent in order
      still spell what the opened ones do. */
  lemma {:induction false} EmptyFilesNeverMatter(files: seq<seq<byte>>, inUse: seq<seq<byte>>)
    requires |inUse| == |NonEmpty(files)|
    ensures Flatten(WithEmpty(files, inUse)) == Flatten(inUse)
  {
    if files != [] {
      if files[0] == [] {
        var rest := WithEmpty(files[1..], inUse);
        EmptyFilesNeverMatter(files[1..], inUse);
        assert ([[]] + rest)[1..] == rest && [] + Flatten(rest) == Flatten(rest);
      } else {
        var rest := WithEmpty(files[1..], inUse[1..]);
        EmptyFilesNeverMatter(files[1..], inUse[1..]);
        assert ([inUse[0]] + rest)[1..] == rest;
      }
    }
  }

  ghost function Sizes(files: seq<seq<byte>>): seq<nat> {
    seq(|files|, k requires 0 <= k < |files| => |files[k]|)
  }

  lemma {:induction false} NonEmptyArePositive(files: seq<seq<byte>>)
    ensures AllPositive(Sizes(NonEmpty(files))) && Sized(NonEmpty(files), Sizes(NonEmpty(files)))
  {
    if files != [] {
      NonEmptyArePositive(files[1..]);
      var rest := NonEmpty(files[1..]);
      forall k | 0 <= k < |NonEmpty(files)| ensures |NonEmpty(files)[k]| > 0 {
        assert 0 <= k < |rest| ==> |rest[k]| == Sizes(rest)[k];
        assert 0 <= k - 1 < |rest| ==> |rest[k - 1]| == Sizes(rest)[k - 1];
      }
    }
  }

  lemma {:induction false} NonEmptyAppend(files: seq<seq<byte>>, file: seq<byte>)
    ensures NonEmpty(files + [file]) == NonEmpty(files) + if file == [] then [] else [file]
  {
    if files == [] {
      assert [] + [file] == [file] && [file][1..] == [];
    } else {
      NonEmptyAppend(files[1..], file);
      assert (files + [file])[1..] == files[1..] + [file];
    }
  }

  /** Putting the empty files back gives every file its size. */
  lemma {:induction false} WithEmptySizes(files: seq<seq<byte>>, inUse: seq<seq<byte>>)
    requires |inUse| == |NonEmpty(files)| && Sized(inUse, Sizes(NonEmpty(files)))
    ensures |WithEmpty(files, inUse)| == |files|
    ensures forall k :: 0 <= k < |files| ==> |WithEmpty(files, inUse)[k]| == |files[k]|
  {
    if files != [] {
      var used := NonEmpty(files);
      if files[0] == [] {
        assert used == NonEmpty(files[1..]);
        WithEmptySizes(files[1..], inUse);
      } else {
        var rest := NonEmpty(files[1..]);
        assert used == [files[0]] + rest;
        forall k | 0 <= k < |rest| ensures |inUse[1..][k]| == Sizes(rest)[k] {
          assert |inUse[k + 1]| == Sizes(used)[k + 1] == |used[k + 1]|;
        }
        assert |inUse[0]| == Sizes(used)[0] == |files[0]|;
        WithEmptySizes(files[1..], inUse[1..]);
      }
    }
  }
}
