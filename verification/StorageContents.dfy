/**
  What a storage holds after any run, told byte by byte from the operations alone.
 */
module StorageContents {
  import opened Common
  import opened Sorting
  import opened Dimensions
  import opened Coordinates
  import opened Storages
  import opened StorageObjects

  /** The block starts at this byte of the torrent. */
  function Start(dim: Dimension, desc: BlockDesc): nat {
    desc.start.piece * dim.pieceSize + desc.start.offset
  }

  predicate InBlock(dim: Dimension, desc: BlockDesc, p: nat) {
    Start(dim, desc) <= p < Start(dim, desc) + desc.size
  }

  /** An accepted write of a block that has this byte. */
  predicate Writes(dim: Dimension, op: Op, p: nat) {
    op.WriteOp? && CheckBlockDesc(dim, op.desc) && InBlock(dim, op.desc, p)
  }

  /** After the operations byte `p` is `b`: the last write of it wrote that, or it was
      never written and was that before. */
  ghost predicate IsByte(dim: Dimension, data: seq<byte>, ops: seq<Op>, p: nat, b: byte) {
    || (p < |data| && b == data[p] && forall i :: 0 <= i < |ops| ==> !Writes(dim, ops[i], p))
    || (exists i :: LastWrites(dim, ops, p, i, b))
  }

  ghost predicate LastWrites(dim: Dimension, ops: seq<Op>, p: nat, i: nat, b: byte) {
    && i < |ops| && Writes(dim, ops[i], p)
    && p - Start(dim, ops[i].desc) < |ops[i].buffer| && b == ops[i].buffer[p - Start(dim, ops[i].desc)]
    && forall j :: i < j < |ops| ==> !Writes(dim, ops[j], p)
  }

  /** One write: the bytes of the block are those of the buffer, all others stay. */
  lemma WrittenByte(dim: Dimension, data: seq<byte>, desc: BlockDesc, buffer: seq<byte>, p: nat)
    requires Dimensions.Valid(dim) && |data| == dim.size && EnoughBytes(dim, desc, buffer) && p < dim.size
    ensures FlatWritten(dim, data, desc, buffer)[p]
         == if CheckBlockDesc(dim, desc) && InBlock(dim, desc, p) then buffer[p - Start(dim, desc)] else data[p]
  {
    if CheckBlockDesc(dim, desc) {
      CheckedBlockInside(dim, desc);
      assert Position(dim, desc) == Start(dim, desc);
    }
  }

  lemma StepByte(dim: Dimension, data: seq<byte>, op: Op, p: nat)
    requires Dimensions.Valid(dim) && |data| == dim.size && Callable(dim, op) && p < dim.size
    ensures Writes(dim, op, p) ==> p - Start(dim, op.desc) < |op.buffer|
    ensures FlatStep(dim, data, op).0[p] == if Writes(dim, op, p) then op.buffer[p - Start(dim, op.desc)] else data[p]
  {
    if op.WriteOp? {
      WrittenByte(dim, data, op.desc, op.buffer, p);
    }
  }

  /** The storage after a run, byte by byte. */
  lemma {:induction false} RunByte(dim: Dimension, data: seq<byte>, ops: seq<Op>, p: nat)
    requires Dimensions.Valid(dim) && |data| == dim.size && AllCallable(dim, ops) && p < dim.size
    ensures |FlatRun(dim, data, ops).0| == dim.size
    ensures IsByte(dim, data, ops, p, FlatRun(dim, data, ops).0[p])
    decreases |ops|
  {
    if ops != [] {
      var data' := FlatStep(dim, data, ops[0]).0;
      StepByte(dim, data, ops[0], p);
      RunByte(dim, data', ops[1..], p);
      EarlierOp(dim, data, ops, p, data', FlatRun(dim, data, ops).0[p]);
    }
  }

  lemma EarlierOp(dim: Dimension, data: seq<byte>, ops: seq<Op>, p: nat, data': seq<byte>, b: byte)
    requires ops != [] && p < |data| == |data'| && IsByte(dim, data', ops[1..], p, b)
    requires Writes(dim, ops[0], p) ==> p - Start(dim, ops[0].desc) < |ops[0].buffer|
    requires data'[p] == if Writes(dim, ops[0], p) then ops[0].buffer[p - Start(dim, ops[0].desc)] else data[p]
    ensures IsByte(dim, data, ops, p, b)
  {
    var rest := ops[1..];
    assert forall j :: 0 < j < |ops| ==> ops[j] == rest[j - 1];
    if i: nat :| LastWrites(dim, rest, p, i, b) {
      assert LastWrites(dim, ops, p, i + 1, b);
    } else if Writes(dim, ops[0], p) {
      assert LastWrites(dim, ops, p, 0, b);
    }
  }

  /** The answer at a point of a run is that of the state reached there. */
  lemma {:induction false} RunOutput(dim: Dimension, data: seq<byte>, ops: seq<Op>, k: nat)
    requires Dimensions.Valid(dim) && |data| == dim.size && AllCallable(dim, ops) && k < |ops|
    ensures |FlatRun(dim, data, ops).1| == |ops| && |FlatRun(dim, data, ops[..k]).0| == dim.size
    ensures FlatRun(dim, data, ops).1[k] == FlatStep(dim, FlatRun(dim, data, ops[..k]).0, ops[k]).1
    decreases |ops|
  {
    var data' := FlatStep(dim, data, ops[0]).0;
    if k > 0 {
      RunOutput(dim, data', ops[1..], k - 1);
      assert ops[..k][0] == ops[0] && ops[..k][1..] == ops[1..][..k - 1];
    } else {
      assert ops[..k] == [];
      if |ops| > 1 {
        RunOutput(dim, data', ops[1..], 0);
      }
    }
  }

  // ---- What every answer of a run is ----

  /** The bytes are those of the torrent from byte `s` on. */
  ghost predicate AreBytes(dim: Dimension, data: seq<byte>, ops: seq<Op>, s: nat, bytes: seq<byte>) {
    forall q :: 0 <= q < |bytes| ==> IsByte(dim, data, ops, s + q, bytes[q])
  }

  /** The answer of operation `k`, told from the operations before it. */
  ghost predicate Answers(dim: Dimension, data: seq<byte>, ops: seq<Op>, k: nat, out: Output)
    requires k < |ops|
  {
    match ops[k]
    case ReadOp(desc) =>
      if CheckBlockDesc(dim, desc)
      then out.Bytes? && |out.bytes| == desc.size && AreBytes(dim, data, ops[..k], Start(dim, desc), out.bytes)
      else out == Refused(InvalidBlockDesc(desc))
    case WriteOp(desc, buffer) =>
      if CheckBlockDesc(dim, desc)
      then out.Left? && desc.size <= |buffer| && out.buffer == buffer[desc.size..]
      else out == Refused(InvalidBlockDesc(desc))
    case VerifyOp(piece) =>
      && out.Checked? && CheckedPieceSize(dim, piece) == Some(|out.bytes|)
      && AreBytes(dim, data, ops[..k], piece * dim.pieceSize, out.bytes)
  }

  lemma SliceBytes(dim: Dimension, data: seq<byte>, ops: seq<Op>, s: nat, n: nat)
    requires Dimensions.Valid(dim) && |data| == dim.size && AllCallable(dim, ops) && s + n <= dim.size
    ensures |FlatRun(dim, data, ops).0| == dim.size
    ensures AreBytes(dim, data, ops, s, FlatRun(dim, data, ops).0[s..s + n])
  {
    var end := FlatRun(dim, data, ops).0;
    forall p: nat | p < dim.size ensures |end| == dim.size && IsByte(dim, data, ops, p, end[p]) {
      RunByte(dim, data, ops, p);
    }
    PieceInside(dim, 0);
    RunByte(dim, data, ops, 0);
  }

  lemma ReadAnswer(dim: Dimension, data: seq<byte>, ops: seq<Op>, desc: BlockDesc)
    requires Dimensions.Valid(dim) && |data| == dim.size && AllCallable(dim, ops) && CheckBlockDesc(dim, desc)
    ensures |FlatRun(dim, data, ops).0| == dim.size
    ensures var r := FlatRead(dim, FlatRun(dim, data, ops).0, desc);
            r.Ok? && |r.value| == desc.size && AreBytes(dim, data, ops, Start(dim, desc), r.value)
  {
    CheckedBlockInside(dim, desc);
    SliceBytes(dim, data, ops, Start(dim, desc), desc.size);
    FlatReadIs(dim, FlatRun(dim, data, ops).0, desc);
  }

  lemma FlatAnswers(dim: Dimension, data: seq<byte>, ops: seq<Op>, k: nat)
    requires Dimensions.Valid(dim) && |data| == dim.size && AllCallable(dim, ops) && k < |ops|
    ensures |FlatRun(dim, data, ops).1| == |ops| && Answers(dim, data, ops, k, FlatRun(dim, data, ops).1[k])
  {
    RunOutput(dim, data, ops, k);
    var before := ops[..k];
    match ops[k] {
      case ReadOp(desc) =>
        if CheckBlockDesc(dim, desc) {
          ReadAnswer(dim, data, before, desc);
        }
      case WriteOp(_, _) =>
      case VerifyOp(piece) =>
        PieceInside(dim, piece);
        SliceBytes(dim, data, before, piece * dim.pieceSize, CheckedPieceSize(dim, piece).value);
    }
  }

  /** The storage as it is opened, in every run: each answer is told from the operations
      before it, and in the end each byte is the last one written to it. */
  lemma OpenedAnswers(dim: Dimension, files: seq<seq<byte>>, ops: seq<Op>)
    requires Dimensions.Valid(dim) && |Flatten(files)| == dim.size && AllCallable(dim, ops)
    ensures var used := NonEmpty(files);
            && FileStart(Sizes(used), |Sizes(used)|) == dim.size && Sized(used, Sizes(used))
            && var (end, outs) := FilesRun(dim, Sizes(used), used, ops);
            && |end| == |used| && |outs| == |ops|
            && AreBytes(dim, Flatten(files), ops, 0, Flatten(WithEmpty(files, end)))
            && forall k :: 0 <= k < |ops| ==> Answers(dim, Flatten(files), ops, k, outs[k])
  {
    OpenedRefinesFlat(dim, files, ops);
    var data := Flatten(files);
    forall k | 0 <= k < |ops|
      ensures |FlatRun(dim, data, ops).1| == |ops| && Answers(dim, data, ops, k, FlatRun(dim, data, ops).1[k])
    {
      FlatAnswers(dim, data, ops, k);
    }
    SliceBytes(dim, data, ops, 0, dim.size);
    var end := FlatRun(dim, data, ops).0;
    assert end[0..0 + dim.size] == end;
    NoAnswers(dim, data, ops);
  }

  lemma NoAnswers(dim: Dimension, data: seq<byte>, ops: seq<Op>)
    requires Dimensions.Valid(dim) && |data| == dim.size && AllCallable(dim, ops)
    ensures |FlatRun(dim, data, ops).1| == |ops|
  {
    if ops != [] {
      RunOutput(dim, data, ops, 0);
    }
  }

  /** None of the operations from `i` on writes into the block. */
  ghost predicate Undisturbed(dim: Dimension, desc: BlockDesc, ops: seq<Op>, i: nat) {
    forall j, p: nat :: i <= j < |ops| && InBlock(dim, desc, p) ==> !Writes(dim, ops[j], p)
  }

  lemma OneByte(dim: Dimension, data: seq<byte>, ops: seq<Op>, p: nat, i: nat, b: byte)
    requires IsByte(dim, data, ops, p, b) && i < |ops| && Writes(dim, ops[i], p)
    requires Undisturbed(dim, ops[i].desc, ops, i + 1)
    ensures LastWrites(dim, ops, p, i, b)
  {
    var k: nat :| LastWrites(dim, ops, p, k, b);
    assert InBlock(dim, ops[i].desc, p);
  }

  lemma NeverWritten(dim: Dimension, data: seq<byte>, ops: seq<Op>, desc: BlockDesc, p: nat, b: byte)
    requires IsByte(dim, data, ops, p, b) && InBlock(dim, desc, p) && Undisturbed(dim, desc, ops, 0)
    ensures p < |data| && b == data[p]
  {
  }

  /** So reading a block that nobody has written to since gives back what was written,
      whatever happened before and to other blocks. */
  lemma ReadBack(dim: Dimension, data: seq<byte>, ops: seq<Op>, i: nat, k: nat, out: Output)
    requires i < k < |ops| && Answers(dim, data, ops, k, out) && ops[i].WriteOp? && Callable(dim, ops[i])
    requires ops[k] == ReadOp(ops[i].desc) && CheckBlockDesc(dim, ops[i].desc)
    requires Undisturbed(dim, ops[i].desc, ops[..k], i + 1)
    ensures out == Bytes(ops[i].buffer[..ops[i].desc.size])
  {
    var desc := ops[i].desc;
    var before := ops[..k];
    assert before[i] == ops[i];
    forall q | 0 <= q < desc.size ensures out.bytes[q] == ops[i].buffer[q] {
      assert IsByte(dim, data, before, Start(dim, desc) + q, out.bytes[q]);
      OneByte(dim, data, before, Start(dim, desc) + q, i, out.bytes[q]);
    }
  }

  /** And reading a block that nobody has ever written to gives what was there. */
  lemma ReadUntouched(dim: Dimension, data: seq<byte>, ops: seq<Op>, k: nat, out: Output)
    requires k < |ops| && Answers(dim, data, ops, k, out) && ops[k].ReadOp? && CheckBlockDesc(dim, ops[k].desc)
    requires Undisturbed(dim, ops[k].desc, ops[..k], 0)
    requires Start(dim, ops[k].desc) + ops[k].desc.size <= |data|
    ensures out == Bytes(data[Start(dim, ops[k].desc)..Start(dim, ops[k].desc) + ops[k].desc.size])
  {
    var desc := ops[k].desc;
    forall q | 0 <= q < desc.size ensures out.bytes[q] == data[Start(dim, desc) + q] {
      var p := Start(dim, desc) + q;
      assert IsByte(dim, data, ops[..k], p, out.bytes[q]);
      NeverWritten(dim, data, ops[..k], desc, p, out.bytes[q]);
    }
  }

  // ---- Scans ----

  ghost predicate SamePiece(dim: Dimension, a: seq<byte>, b: seq<byte>, piece: nat)
    requires |a| == dim.size && |b| == dim.size
  {
    forall p :: 0 <= p < dim.size && piece * dim.pieceSize <= p < (piece + 1) * dim.pieceSize ==> a[p] == b[p]
  }

  /** Where the hashes are those of some contents, and hashing tells byte strings apart, a
      scan finds exactly the pieces that agree with these contents. */
  lemma ScanFindsIntact(dim: Dimension, data: seq<byte>, intended: seq<byte>, hashes: seq<Hash>,
                        hash: seq<byte> -> Hash, bits: seq<bool>, piece: nat)
    requires Dimensions.Valid(dim) && |data| == dim.size && |intended| == dim.size && |hashes| == dim.numPieces
    requires forall a, b :: hash(a) == hash(b) ==> a == b
    requires piece < dim.numPieces && IsScan(dim, data, hashes, hash, bits)
    requires var s, e := piece * dim.pieceSize, Min((piece + 1) * dim.pieceSize, dim.size);
             s <= e && hashes[piece] == hash(intended[s..e])
    ensures |bits| == dim.numPieces
    ensures bits[piece] <==> SamePiece(dim, data, intended, piece)
  {
    PiecesTile(dim, piece);
    var s, e := piece * dim.pieceSize, Min((piece + 1) * dim.pieceSize, dim.size);
    assert bits[piece] == Matches(dim, data, hashes, hash, piece);
    assert PieceBytes(dim, data, piece) == data[s..e];
    if data[s..e] == intended[s..e] {
      forall p | s <= p < e ensures data[p] == intended[p] {
        assert data[s..e][p - s] == intended[s..e][p - s];
      }
    }
  }
}
