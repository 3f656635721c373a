/**
  The two storages as objects (rust/bittorrent/storage/src/file.rs, single.rs),
  both proved against one flat array of bytes.
 */
module StorageObjects {
  import opened Common
  import opened Sorting
  import opened Dimensions
  import opened Coordinates
  import opened Storages

  // ---- The flat array ----

  function Position(dim: Dimension, desc: BlockDesc): nat
    requires CheckBlockDesc(dim, desc)
  {
    ToScalar(desc.start, dim.pieceSize)
  }

  function FlatRead(dim: Dimension, data: seq<byte>, desc: BlockDesc): Result<seq<byte>, Error>
    requires Dimensions.Valid(dim) && |data| == dim.size
  {
    if !CheckBlockDesc(dim, desc) then Err(InvalidBlockDesc(desc))
    else
      CheckedBlockInside(dim, desc);
      var s := Position(dim, desc);
      Ok(data[s..s + desc.size])
  }

  /** The callers' buffer holds at least the block; the sources assert it. */
  predicate EnoughBytes(dim: Dimension, desc: BlockDesc, buffer: seq<byte>) {
    CheckBlockDesc(dim, desc) ==> desc.size <= |buffer|
  }

  function FlatWritten(dim: Dimension, data: seq<byte>, desc: BlockDesc, buffer: seq<byte>): (r: seq<byte>)
    requires Dimensions.Valid(dim) && |data| == dim.size && EnoughBytes(dim, desc, buffer)
    ensures |r| == dim.size
  {
    if !CheckBlockDesc(dim, desc) then data
    else
      CheckedBlockInside(dim, desc);
      Splice(data, Position(dim, desc), buffer[..desc.size])
  }

  function PieceBytes(dim: Dimension, data: seq<byte>, piece: nat): seq<byte>
    requires Dimensions.Valid(dim) && |data| == dim.size && piece < dim.numPieces
  {
    PieceInside(dim, piece);
    var s := piece * dim.pieceSize;
    data[s..s + CheckedPieceSize(dim, piece).value]
  }

  ghost predicate IsScan(dim: Dimension, data: seq<byte>, hashes: seq<Hash>, hash: seq<byte> -> Hash, bits: seq<bool>)
    requires Dimensions.Valid(dim) && |data| == dim.size && |hashes| == dim.numPieces
  {
    && |bits| == dim.numPieces
    && forall k :: 0 <= k < |bits| ==> bits[k] == Matches(dim, data, hashes, hash, k)
  }

  /** The piece has the hash it should have. */
  predicate Matches(dim: Dimension, data: seq<byte>, hashes: seq<Hash>, hash: seq<byte> -> Hash, piece: nat)
    requires Dimensions.Valid(dim) && |data| == dim.size && |hashes| == dim.numPieces && piece < dim.numPieces
  {
    hashes[piece] == hash(PieceBytes(dim, data, piece))
  }

  // ---- Several files ----

  class FileStorage {
    const cs: CoordSys
    const pieceHashes: seq<Hash>
    const hash: seq<byte> -> Hash
    ghost const sizes: seq<nat>
    var files: seq<seq<byte>>

    ghost predicate Valid()
      reads this
    {
      && Describes(cs, sizes) && Sized(files, sizes)
      && |pieceHashes| == cs.dim.numPieces
    }

    /** The torrent that the files spell. */
    ghost function Flat(): (r: seq<byte>)
      requires Valid()
      reads this
      ensures |r| == cs.dim.size
    {
      WholeLength(files, sizes);
      Flatten(files)
    }

    constructor (cs: CoordSys, files: seq<seq<byte>>, pieceHashes: seq<Hash>, hash: seq<byte> -> Hash,
                 ghost sizes: seq<nat>)
      requires Describes(cs, sizes) && Sized(files, sizes) && |pieceHashes| == cs.dim.numPieces
      ensures Valid() && this.files == files && this.cs == cs && this.pieceHashes == pieceHashes && this.hash == hash
    {
      this.cs, this.files, this.pieceHashes, this.hash, this.sizes := cs, files, pieceHashes, hash, sizes;
    }

    /** Reads the segments one after the other. */
    method ReadSegments(segs: seq<Segment>) returns (bytes: seq<byte>)
      requires Fits(segs, files)
      ensures bytes == ReadAll(files, segs)
    {
      bytes := [];
      var todo := segs;
      while todo != []
        invariant Fits(todo, files) && bytes + ReadAll(files, todo) == ReadAll(files, segs)
        decreases |todo|
      {
        ConcatAssociates(bytes, SegmentBytes(files, todo[0]), ReadAll(files, todo[1..]));
        bytes := bytes + SegmentBytes(files, todo[0]);
        todo := todo[1..];
      }
    }

    method Read(desc: BlockDesc) returns (r: Result<seq<byte>, Error>)
      requires Valid()
      ensures r == FlatRead(cs.dim, Flat(), desc)
    {
      var descs := ToFileDescs(cs, desc, sizes);
      if descs.Err? {
        return Err(descs.error);
      }
      BlockReadIsFlat(files, sizes, Position(cs.dim, desc), desc.size);
      var bytes := ReadSegments(descs.value);
      return Ok(bytes);
    }

    /** Writes the segments one after the other from the front of the buffer. */
    method WriteSegments(segs: seq<Segment>, buffer: seq<byte>, ghost s: nat, ghost n: nat) returns (rest: seq<byte>)
      requires Sized(files, sizes) && Tiles(sizes, segs, s, n) && n <= |buffer|
      modifies this`files
      ensures files == WriteAll(old(files), sizes, segs, s, buffer[..n])
      ensures rest == buffer[n..]
    {
      rest := buffer;
      var todo := segs;
      ghost var at: nat, left: nat := s, n;
      while todo != []
        invariant Sized(files, sizes) && Tiles(sizes, todo, at, left) && left <= |rest| && left <= n
        invariant rest == buffer[n - left..]
        invariant WriteAll(files, sizes, todo, at, rest[..left]) == WriteAll(old(files), sizes, segs, s, buffer[..n])
        decreases |todo|
      {
        WriteAllStep(files, sizes, todo, at, rest, left);
        files := WriteSegment(files, todo[0], rest[..todo[0].size]);
        rest := rest[todo[0].size..];
        at, left := at + todo[0].size, left - todo[0].size;
        todo := todo[1..];
      }
    }

    /** Writes the block from the front of the buffer; returns what is left of it. */
    method Write(desc: BlockDesc, buffer: seq<byte>) returns (r: Result<seq<byte>, Error>)
      requires Valid() && EnoughBytes(cs.dim, desc, buffer)
      modifies this`files
      ensures Valid() && Flat() == FlatWritten(cs.dim, old(Flat()), desc, buffer)
      ensures r == if CheckBlockDesc(cs.dim, desc) then Ok(buffer[desc.size..]) else Err(InvalidBlockDesc(desc))
    {
      var descs := ToFileDescs(cs, desc, sizes);
      if descs.Err? {
        return Err(descs.error);
      }
      BlockWriteIsFlat(files, sizes, Position(cs.dim, desc), buffer[..desc.size]);
      var rest := WriteSegments(descs.value, buffer, Position(cs.dim, desc), desc.size);
      return Ok(rest);
    }

    /** Hashes the piece block by block and segment by segment. */
    method Verify(piece: nat) returns (r: bool)
      requires Valid() && piece < cs.dim.numPieces
      ensures r == Matches(cs.dim, Flat(), pieceHashes, hash, piece)
    {
      var descs := BlockDescs(cs.dim, piece);
      PieceInside(cs.dim, piece);
      BlocksTilePiece(cs.dim, piece, 0);
      var bytes: seq<byte> := [];
      for k := 0 to |descs|
        invariant bytes == Hashed(cs.dim, Flat(), piece, descs, k)
      {
        HashedNext(cs.dim, Flat(), piece, descs, k);
        var block := Read(descs[k]);
        bytes := bytes + block.value;
      }
      HashedAll(cs.dim, Flat(), piece, descs);
      return pieceHashes[piece] == hash(bytes);
    }

    method Scan() returns (bits: seq<bool>)
      requires Valid()
      ensures IsScan(cs.dim, Flat(), pieceHashes, hash, bits)
    {
      bits := [];
      for k := 0 to |pieceHashes|
        invariant |bits| == k
        invariant forall j :: 0 <= j < k ==> bits[j] == Matches(cs.dim, Flat(), pieceHashes, hash, j)
      {
        var ok := Verify(k);
        bits := bits + [ok];
      }
    }
  }

  // ---- Hashing a piece block by block ----

  /** The blocks of the piece, as the dimension lists them. */
  ghost predicate AreBlocksOf(dim: Dimension, piece: nat, descs: seq<BlockDesc>) {
    && Dimensions.Valid(dim) && piece < dim.numPieces
    && descs == BlocksFrom(dim, piece, 0, CheckedPieceSize(dim, piece).value)
  }

  /** How far into the piece the first `k` blocks reach. */
  ghost function Reached(descs: seq<BlockDesc>, k: nat): nat
    requires k <= |descs|
  {
    if k == 0 then 0 else descs[k - 1].start.offset + descs[k - 1].size
  }

  lemma ReachedInside(dim: Dimension, piece: nat, descs: seq<BlockDesc>, k: nat)
    requires AreBlocksOf(dim, piece, descs) && k <= |descs|
    ensures CheckedPieceSize(dim, piece).Some?
    ensures Reached(descs, k) <= CheckedPieceSize(dim, piece).value
    ensures piece * dim.pieceSize + CheckedPieceSize(dim, piece).value <= dim.size
    ensures k < |descs| ==>
              && CheckBlockDesc(dim, descs[k])
              && descs[k].start.piece == piece && descs[k].start.offset == Reached(descs, k)
    ensures k == |descs| ==> Reached(descs, k) == CheckedPieceSize(dim, piece).value
  {
    PieceInside(dim, piece);
    BlocksTilePiece(dim, piece, 0);
    if 0 < k {
      assert CheckBlockDesc(dim, descs[k - 1]);
      CheckBlockDescExactly(dim, descs[k - 1]);
      if k < |descs| {
        assert descs[k - 1 + 1].start.offset == descs[k - 1].start.offset + descs[k - 1].size;
      }
    }
  }

  /** What has been hashed after `k` blocks. */
  ghost function Hashed(dim: Dimension, data: seq<byte>, piece: nat, descs: seq<BlockDesc>, k: nat): (r: seq<byte>)
    requires AreBlocksOf(dim, piece, descs) && k <= |descs| && |data| == dim.size
    ensures |r| == Reached(descs, k)
  {
    ReachedInside(dim, piece, descs, k);
    data[piece * dim.pieceSize..piece * dim.pieceSize + Reached(descs, k)]
  }

  lemma HashedNothing(dim: Dimension, data: seq<byte>, piece: nat, descs: seq<BlockDesc>)
    requires AreBlocksOf(dim, piece, descs) && |data| == dim.size
    ensures Hashed(dim, data, piece, descs, 0) == []
  {
    ReachedInside(dim, piece, descs, 0);
    assert |Hashed(dim, data, piece, descs, 0)| == Reached(descs, 0) == 0;
  }

  lemma HashedNext(dim: Dimension, data: seq<byte>, piece: nat, descs: seq<BlockDesc>, k: nat)
    requires AreBlocksOf(dim, piece, descs) && k < |descs| && |data| == dim.size
    ensures FlatRead(dim, data, descs[k]).Ok?
    ensures Hashed(dim, data, piece, descs, k + 1)
              == Hashed(dim, data, piece, descs, k) + FlatRead(dim, data, descs[k]).value
  {
    ReachedInside(dim, piece, descs, k);
    ReachedInside(dim, piece, descs, k + 1);
    CheckedBlockInside(dim, descs[k]);
    var s := piece * dim.pieceSize;
    var a, b := s + Reached(descs, k), s + Reached(descs, k + 1);
    assert Position(dim, descs[k]) == a;
    assert data[s..a] + data[a..b] == data[s..b];
  }

  lemma HashedAll(dim: Dimension, data: seq<byte>, piece: nat, descs: seq<BlockDesc>)
    requires AreBlocksOf(dim, piece, descs) && |data| == dim.size
    ensures Hashed(dim, data, piece, descs, |descs|) == PieceBytes(dim, data, piece)
  {
    ReachedInside(dim, piece, descs, |descs|);
  }

  // ---- One file ----

  class SingleStorage {
    const cs: CoordSys
    const pieceHashes: seq<Hash>
    const hash: seq<byte> -> Hash
    var data: seq<byte>
    var cursor: nat

    ghost predicate Valid()
      reads this
    {
      && Describes(cs, [cs.dim.size]) && |data| == cs.dim.size
      && |pieceHashes| == cs.dim.numPieces
    }

    constructor (cs: CoordSys, data: seq<byte>, pieceHashes: seq<Hash>, hash: seq<byte> -> Hash)
      requires Describes(cs, [cs.dim.size]) && |data| == cs.dim.size && |pieceHashes| == cs.dim.numPieces
      ensures Valid() && this.data == data && this.cs == cs && this.pieceHashes == pieceHashes && this.hash == hash
    {
      this.cs, this.data, this.pieceHashes, this.hash, this.cursor := cs, data, pieceHashes, hash, 0;
    }

    /** Moves the cursor to the block.  At the very end of the torrent there is no
        position to seek to, and the block is empty. */
    method Prepare(desc: BlockDesc) returns (r: Result<Option<nat>, Error>)
      requires Valid()
      modifies this`cursor
      ensures r == if !CheckBlockDesc(cs.dim, desc) then Err(InvalidBlockDesc(desc))
                   else if Position(cs.dim, desc) < cs.dim.size then Ok(Some(desc.size))
                   else Ok(None)
      ensures r.Ok? && r.value.Some? ==> cursor == Position(cs.dim, desc)
      ensures r.Ok? && r.value.None? ==> desc.size == 0 && cursor == old(cursor)
    {
      if !CheckBlockDesc(cs.dim, desc) {
        return Err(InvalidBlockDesc(desc));
      }
      CheckedBlockInside(cs.dim, desc);
      var place := ToFileOffset(cs, desc.start, [cs.dim.size], Position(cs.dim, desc));
      if place.None? {
        return Ok(None);
      }
      OnlyFile(cs.dim.size, Position(cs.dim, desc));
      cursor := place.value.1;
      return Ok(Some(desc.size));
    }

    /** Reads on from the cursor. */
    method ReadOn(size: nat) returns (bytes: seq<byte>)
      requires size == 0 || cursor + size <= |data|
      modifies this`cursor
      ensures bytes == if size == 0 then [] else data[old(cursor)..old(cursor) + size]
      ensures cursor == old(cursor) + size
    {
      bytes := if size == 0 then [] else data[cursor..cursor + size];
      cursor := cursor + size;
    }

    method Read(desc: BlockDesc) returns (r: Result<seq<byte>, Error>)
      requires Valid()
      modifies this`cursor
      ensures Valid() && r == FlatRead(cs.dim, data, desc)
    {
      var place := Prepare(desc);
      if place.Err? {
        return Err(place.error);
      }
      FlatReadIs(cs.dim, data, desc);
      var bytes := ReadOn(if place.value.Some? then place.value.value else 0);
      return Ok(bytes);
    }

    method Write(desc: BlockDesc, buffer: seq<byte>) returns (r: Result<seq<byte>, Error>)
      requires Valid() && EnoughBytes(cs.dim, desc, buffer)
      modifies this`cursor, this`data
      ensures Valid() && data == FlatWritten(cs.dim, old(data), desc, buffer)
      ensures r == if CheckBlockDesc(cs.dim, desc) then Ok(buffer[desc.size..]) else Err(InvalidBlockDesc(desc))
    {
      var place := Prepare(desc);
      if place.Err? {
        return Err(place.error);
      }
      CheckedBlockInside(cs.dim, desc);
      var size := if place.value.Some? then place.value.value else 0;
      if size > 0 {
        data := Splice(data, cursor, buffer[..size]);
      }
      assert size == 0 ==> Splice(data, Position(cs.dim, desc), []) == data;
      cursor := cursor + size;
      return Ok(buffer[size..]);
    }

    /** Hashes the piece at the cursor. */
    method VerifyHere(piece: nat) returns (r: bool)
      requires Valid() && piece < cs.dim.numPieces && cursor == piece * cs.dim.pieceSize
      modifies this`cursor
      ensures r == Matches(cs.dim, data, pieceHashes, hash, piece)
      ensures piece + 1 < cs.dim.numPieces ==> cursor == (piece + 1) * cs.dim.pieceSize
    {
      PieceInside(cs.dim, piece);
      if piece + 1 < cs.dim.numPieces {
        NextPieceStart(cs.dim, piece);
      }
      var bytes := ReadOn(CheckedPieceSize(cs.dim, piece).value);
      return pieceHashes[piece] == hash(bytes);
    }

    method Verify(piece: nat) returns (r: bool)
      requires Valid() && piece < cs.dim.numPieces
      modifies this`cursor
      ensures r == Matches(cs.dim, data, pieceHashes, hash, piece)
    {
      var start := BlockDesc(BlockOffset(piece, 0), 0);
      PieceStartIsChecked(cs.dim, piece);
      var place := Prepare(start);
      r := VerifyHere(piece);
    }

    /** Scans with one seek: each piece is read where the one before ended. */
    method Scan() returns (bits: seq<bool>)
      requires Valid()
      modifies this`cursor
      ensures IsScan(cs.dim, data, pieceHashes, hash, bits)
    {
      bits := [];
      PieceStartIsChecked(cs.dim, 0);
      var place := Prepare(BlockDesc(BlockOffset(0, 0), 0));
      for k := 0 to |pieceHashes|
        invariant |bits| == k
        invariant k < cs.dim.numPieces ==> cursor == k * cs.dim.pieceSize
        invariant forall j :: 0 <= j < k ==> bits[j] == Matches(cs.dim, data, pieceHashes, hash, j)
      {
        var ok := VerifyHere(k);
        bits := bits + [ok];
      }
    }
  }

  lemma FlatReadIs(dim: Dimension, data: seq<byte>, desc: BlockDesc)
    requires Dimensions.Valid(dim) && |data| == dim.size && CheckBlockDesc(dim, desc)
    ensures Position(dim, desc) + desc.size <= |data|
    ensures FlatRead(dim, data, desc) == Ok(data[Position(dim, desc)..Position(dim, desc) + desc.size])
    ensures desc.size == 0 ==> FlatRead(dim, data, desc) == Ok([])
  {
    CheckedBlockInside(dim, desc);
    var s := Position(dim, desc);
    assert data[s..s] == [];
  }

  lemma PieceStartIsChecked(dim: Dimension, piece: nat)
    requires Dimensions.Valid(dim) && piece < dim.numPieces
    ensures var start := BlockDesc(BlockOffset(piece, 0), 0);
            CheckBlockDesc(dim, start) && Position(dim, start) == piece * dim.pieceSize < dim.size
  {
    PieceInside(dim, piece);
    CheckBlockDescExactly(dim, BlockDesc(BlockOffset(piece, 0), 0));
  }

  lemma OnlyFile(size: nat, s: nat)
    requires s < size
    ensures FileStart([size], 1) == size && FileOf([size], s) == 0 && FileStart([size], 0) == 0
  {
  }

  lemma NextPieceStart(dim: Dimension, piece: nat)
    requires Dimensions.Valid(dim) && piece + 1 < dim.numPieces
    ensures piece * dim.pieceSize + CheckedPieceSize(dim, piece).value == (piece + 1) * dim.pieceSize
  {
  }

  // ---- Runs ----

  datatype Op = ReadOp(desc: BlockDesc) | WriteOp(desc: BlockDesc, buffer: seq<byte>) | VerifyOp(piece: nat)

  datatype Output =
    | Bytes(bytes: seq<byte>)
    | Left(buffer: seq<byte>)
    | Checked(bytes: seq<byte>)
    | Refused(error: Error)

  /** What the sources demand of their callers. */
  predicate Callable(dim: Dimension, op: Op) {
    match op
    case ReadOp(_) => true
    case WriteOp(desc, buffer) => EnoughBytes(dim, desc, buffer)
    case VerifyOp(piece) => piece < dim.numPieces
  }

  ghost function FlatStep(dim: Dimension, data: seq<byte>, op: Op): (r: (seq<byte>, Output))
    requires Dimensions.Valid(dim) && |data| == dim.size && Callable(dim, op)
    ensures |r.0| == dim.size
  {
    match op
    case ReadOp(desc) =>
      (data, match FlatRead(dim, data, desc) case Ok(bytes) => Bytes(bytes) case Err(e) => Refused(e))
    case WriteOp(desc, buffer) =>
      (FlatWritten(dim, data, desc, buffer),
       if CheckBlockDesc(dim, desc) then Left(buffer[desc.size..]) else Refused(InvalidBlockDesc(desc)))
    case VerifyOp(piece) => (data, Checked(PieceBytes(dim, data, piece)))
  }

  /** The segments of a checked block. */
  ghost function BlockSegments(dim: Dimension, sizes: seq<nat>, desc: BlockDesc): seq<Segment>
    requires Dimensions.Valid(dim) && FileStart(sizes, |sizes|) == dim.size && CheckBlockDesc(dim, desc)
  {
    CheckedBlockInside(dim, desc);
    Segments(sizes, Position(dim, desc), desc.size)
  }

  ghost function FilesWritten(dim: Dimension, sizes: seq<nat>, files: seq<seq<byte>>, desc: BlockDesc,
                              buffer: seq<byte>): seq<seq<byte>>
    requires Dimensions.Valid(dim) && FileStart(sizes, |sizes|) == dim.size && Sized(files, sizes)
    requires EnoughBytes(dim, desc, buffer)
  {
    if !CheckBlockDesc(dim, desc) then files
    else
      CheckedBlockInside(dim, desc);
      SegmentsTile(sizes, Position(dim, desc), desc.size);
      WriteAll(files, sizes, BlockSegments(dim, sizes, desc), Position(dim, desc), buffer[..desc.size])
  }

  ghost function FilesRead(dim: Dimension, sizes: seq<nat>, files: seq<seq<byte>>, desc: BlockDesc)
      : Result<seq<byte>, Error>
    requires Dimensions.Valid(dim) && FileStart(sizes, |sizes|) == dim.size && Sized(files, sizes)
  {
    if !CheckBlockDesc(dim, desc) then Err(InvalidBlockDesc(desc))
    else
      CheckedBlockInside(dim, desc);
      BlockReadIsFlat(files, sizes, Position(dim, desc), desc.size);
      Ok(ReadAll(files, BlockSegments(dim, sizes, desc)))
  }

  /** The bytes hashed for a piece: its blocks, each read over the files. */
  ghost function FilesHashed(dim: Dimension, sizes: seq<nat>, files: seq<seq<byte>>, descs: seq<BlockDesc>): seq<byte>
    requires Dimensions.Valid(dim) && FileStart(sizes, |sizes|) == dim.size && Sized(files, sizes)
  {
    if descs == [] then []
    else
      var n := |descs| - 1;
      FilesHashed(dim, sizes, files, descs[..n])
      + match FilesRead(dim, sizes, files, descs[n]) case Ok(bytes) => bytes case Err(_) => []
  }

  ghost function FilesStep(dim: Dimension, sizes: seq<nat>, files: seq<seq<byte>>, op: Op): (seq<seq<byte>>, Output)
    requires Dimensions.Valid(dim) && FileStart(sizes, |sizes|) == dim.size && Sized(files, sizes)
    requires Callable(dim, op)
  {
    match op
    case ReadOp(desc) =>
      (files, match FilesRead(dim, sizes, files, desc) case Ok(bytes) => Bytes(bytes) case Err(e) => Refused(e))
    case WriteOp(desc, buffer) =>
      (FilesWritten(dim, sizes, files, desc, buffer),
       if CheckBlockDesc(dim, desc) then Left(buffer[desc.size..]) else Refused(InvalidBlockDesc(desc)))
    case VerifyOp(piece) =>
      PieceInside(dim, piece);
      (files, Checked(FilesHashed(dim, sizes, files, BlocksFrom(dim, piece, 0, CheckedPieceSize(dim, piece).value))))
  }

  lemma FilesReadIsFlat(dim: Dimension, sizes: seq<nat>, files: seq<seq<byte>>, desc: BlockDesc)
    requires Dimensions.Valid(dim) && FileStart(sizes, |sizes|) == dim.size && Sized(files, sizes)
    ensures |Flatten(files)| == dim.size
    ensures FilesRead(dim, sizes, files, desc) == FlatRead(dim, Flatten(files), desc)
  {
    WholeLength(files, sizes);
    if CheckBlockDesc(dim, desc) {
      FlatReadIs(dim, Flatten(files), desc);
      BlockReadIsFlat(files, sizes, Position(dim, desc), desc.size);
    }
  }

  lemma FilesWrittenIsFlat(dim: Dimension, sizes: seq<nat>, files: seq<seq<byte>>, desc: BlockDesc, buffer: seq<byte>)
    requires Dimensions.Valid(dim) && FileStart(sizes, |sizes|) == dim.size && Sized(files, sizes)
    requires EnoughBytes(dim, desc, buffer)
    ensures |Flatten(files)| == dim.size
    ensures Sized(FilesWritten(dim, sizes, files, desc, buffer), sizes)
    ensures Flatten(FilesWritten(dim, sizes, files, desc, buffer)) == FlatWritten(dim, Flatten(files), desc, buffer)
  {
    WholeLength(files, sizes);
    if CheckBlockDesc(dim, desc) {
      CheckedBlockInside(dim, desc);
      BlockWriteIsFlat(files, sizes, Position(dim, desc), buffer[..desc.size]);
    }
  }

  lemma FilesHashedNext(dim: Dimension, sizes: seq<nat>, files: seq<seq<byte>>, descs: seq<BlockDesc>, k: nat)
    requires Dimensions.Valid(dim) && FileStart(sizes, |sizes|) == dim.size && Sized(files, sizes)
    requires k < |descs|
    ensures |Flatten(files)| == dim.size
    ensures FlatRead(dim, Flatten(files), descs[k]).Ok? ==>
              FilesHashed(dim, sizes, files, descs[..k + 1])
              == FilesHashed(dim, sizes, files, descs[..k]) + FlatRead(dim, Flatten(files), descs[k]).value
  {
    FilesReadIsFlat(dim, sizes, files, descs[k]);
    var longer := descs[..k + 1];
    assert longer[..k] == descs[..k] && longer[k] == descs[k];
  }

  lemma {:induction false} FilesHashedIsFlat(dim: Dimension, sizes: seq<nat>, files: seq<seq<byte>>,
                                             piece: nat, descs: seq<BlockDesc>, k: nat)
    requires AreBlocksOf(dim, piece, descs) && k <= |descs|
    requires FileStart(sizes, |sizes|) == dim.size && Sized(files, sizes)
    ensures |Flatten(files)| == dim.size
    ensures FilesHashed(dim, sizes, files, descs[..k]) == Hashed(dim, Flatten(files), piece, descs, k)
  {
    WholeLength(files, sizes);
    if k == 0 {
      HashedNothing(dim, Flatten(files), piece, descs);
      assert descs[..k] == [];
    } else {
      var j := k - 1;
      assert j + 1 == k;
      calc {
        FilesHashed(dim, sizes, files, descs[..j + 1]);
        { HashedNext(dim, Flatten(files), piece, descs, j); FilesHashedNext(dim, sizes, files, descs, j); }
        FilesHashed(dim, sizes, files, descs[..j]) + FlatRead(dim, Flatten(files), descs[j]).value;
        { FilesHashedIsFlat(dim, sizes, files, piece, descs, j); }
        Hashed(dim, Flatten(files), piece, descs, j) + FlatRead(dim, Flatten(files), descs[j]).value;
        { HashedNext(dim, Flatten(files), piece, descs, j); }
        Hashed(dim, Flatten(files), piece, descs, j + 1);
      }
    }
  }

  /** One operation on the files is the same operation on the flat array: same
      answer, and the files spell the new array. */
  lemma StepRefines(dim: Dimension, sizes: seq<nat>, files: seq<seq<byte>>, op: Op)
    requires Dimensions.Valid(dim) && FileStart(sizes, |sizes|) == dim.size && Sized(files, sizes)
    requires Callable(dim, op)
    ensures |Flatten(files)| == dim.size
    ensures Sized(FilesStep(dim, sizes, files, op).0, sizes)
    ensures FlatStep(dim, Flatten(files), op)
              == (Flatten(FilesStep(dim, sizes, files, op).0), FilesStep(dim, sizes, files, op).1)
  {
    WholeLength(files, sizes);
    match op {
      case ReadOp(desc) => FilesReadIsFlat(dim, sizes, files, desc);
      case WriteOp(desc, buffer) => FilesWrittenIsFlat(dim, sizes, files, desc, buffer);
      case VerifyOp(piece) =>
        PieceInside(dim, piece);
        var descs := BlocksFrom(dim, piece, 0, CheckedPieceSize(dim, piece).value);
        FilesHashedIsFlat(dim, sizes, files, piece, descs, |descs|);
        HashedAll(dim, Flatten(files), piece, descs);
        assert descs[..|descs|] == descs;
    }
  }

  ghost predicate AllCallable(dim: Dimension, ops: seq<Op>) {
    forall k :: 0 <= k < |ops| ==> Callable(dim, ops[k])
  }

  ghost function FlatRun(dim: Dimension, data: seq<byte>, ops: seq<Op>): (seq<byte>, seq<Output>)
    requires Dimensions.Valid(dim) && |data| == dim.size && AllCallable(dim, ops)
    decreases |ops|
  {
    if ops == [] then (data, [])
    else
      var (data', out) := FlatStep(dim, data, ops[0]);
      var (end, outs) := FlatRun(dim, data', ops[1..]);
      (end, [out] + outs)
  }

  ghost function FilesRun(dim: Dimension, sizes: seq<nat>, files: seq<seq<byte>>, ops: seq<Op>)
      : (seq<seq<byte>>, seq<Output>)
    requires Dimensions.Valid(dim) && FileStart(sizes, |sizes|) == dim.size && Sized(files, sizes)
    requires AllCallable(dim, ops)
    decreases |ops|
  {
    if ops == [] then (files, [])
    else
      StepRefines(dim, sizes, files, ops[0]);
      var (files', out) := FilesStep(dim, sizes, files, ops[0]);
      var (end, outs) := FilesRun(dim, sizes, files', ops[1..]);
      (end, [out] + outs)
  }

  /** Several files refine one: over every run of reads, writes and verifications,
      good or refused, all answers agree and the files end up spelling the array. */
  lemma {:induction false} FilesRefineFlat(dim: Dimension, sizes: seq<nat>, files: seq<seq<byte>>, ops: seq<Op>)
    requires Dimensions.Valid(dim) && FileStart(sizes, |sizes|) == dim.size && Sized(files, sizes)
    requires AllCallable(dim, ops)
    ensures |Flatten(files)| == dim.size
    ensures Sized(FilesRun(dim, sizes, files, ops).0, sizes)
    ensures FlatRun(dim, Flatten(files), ops)
              == (Flatten(FilesRun(dim, sizes, files, ops).0), FilesRun(dim, sizes, files, ops).1)
    decreases |ops|
  {
    WholeLength(files, sizes);
    if ops != [] {
      StepRefines(dim, sizes, files, ops[0]);
      FilesRefineFlat(dim, sizes, FilesStep(dim, sizes, files, ops[0]).0, ops[1..]);
    }
  }

  // ---- Files of size zero ----

  /** The files in use of a torrent whose files have these contents, and their sizes. */
  lemma InUse(dim: Dimension, files: seq<seq<byte>>)
    requires |Flatten(files)| == dim.size
    ensures var used := NonEmpty(files);
            Sized(used, Sizes(used)) && AllPositive(Sizes(used)) && FileStart(Sizes(used), |Sizes(used)|) == dim.size
  {
    NonEmptyArePositive(files);
    EmptyFilesDoNotMatter(files);
    WholeLength(NonEmpty(files), Sizes(NonEmpty(files)));
  }

  /** The storage as it is opened, over the files that are not empty: in every run it
      gives the answers of the flat array, and all files of the torrent in order, the
      empty ones put back, keep their sizes and end up spelling the array. */
  lemma OpenedRefinesFlat(dim: Dimension, files: seq<seq<byte>>, ops: seq<Op>)
    requires Dimensions.Valid(dim) && |Flatten(files)| == dim.size && AllCallable(dim, ops)
    ensures var used := NonEmpty(files);
            && FileStart(Sizes(used), |Sizes(used)|) == dim.size && Sized(used, Sizes(used))
            && var (end, outs) := FilesRun(dim, Sizes(used), used, ops);
            && |end| == |used|
            && FlatRun(dim, Flatten(files), ops) == (Flatten(WithEmpty(files, end)), outs)
            && |WithEmpty(files, end)| == |files|
            && forall k :: 0 <= k < |files| ==> |WithEmpty(files, end)[k]| == |files[k]|
  {
    var used := NonEmpty(files);
    InUse(dim, files);
    EmptyFilesDoNotMatter(files);
    FilesRefineFlat(dim, Sizes(used), used, ops);
    var (end, outs) := FilesRun(dim, Sizes(used), used, ops);
    EmptyFilesNeverMatter(files, end);
    WithEmptySizes(files, end);
  }

  /** Opens the storage: a coordinate system over the sizes that are not zero, and the
      files of these sizes, in order.  It fails exactly when all files are empty. */
  method Open(dim: Dimension, files: seq<seq<byte>>, pieceHashes: seq<Hash>, hash: seq<byte> -> Hash)
      returns (r: Result<FileStorage, Error>)
    requires Dimensions.Valid(dim) && |pieceHashes| == dim.numPieces
    requires NonEmpty(files) != [] ==> |Flatten(files)| == dim.size
    ensures r.Err? <==> NonEmpty(files) == []
    ensures r.Err? ==> r.error == ExpectNonEmptyFileList
    ensures r.Ok? ==> fresh(r.value) && r.value.Valid() && r.value.cs.dim == dim
    ensures r.Ok? ==> r.value.files == NonEmpty(files) && r.value.Flat() == Flatten(files)
    ensures r.Ok? ==> r.value.pieceHashes == pieceHashes && r.value.hash == hash
  {
    var sizes: seq<nat> := [];
    var inUse: seq<seq<byte>> := [];
    for i := 0 to |files|
      invariant inUse == NonEmpty(files[..i]) && sizes == Sizes(inUse)
    {
      NonEmptyAppend(files[..i], files[i]);
      assert files[..i + 1] == files[..i] + [files[i]];
      if |files[i]| > 0 {
        sizes := sizes + [|files[i]|];
        inUse := inUse + [files[i]];
      }
    }
    assert files[..|files|] == files;
    NonEmptyArePositive(files);
    if inUse != [] {
      InUse(dim, files);
    }
    var cs := NewCoordSys(dim, sizes);
    if cs.Err? {
      return Err(cs.error);
    }
    EmptyFilesDoNotMatter(files);
    var storage := new FileStorage(cs.value, inUse, pieceHashes, hash, sizes);
    return Ok(storage);
  }
}
