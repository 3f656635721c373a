/**
  Pieces, blocks and the dimensions of a torrent (rust/bittorrent/base/src/lib.rs).
  Sizes are unbounded here; the source uses 64-bit ones.
 */
module Dimensions {
  import opened Common

  datatype BlockOffset = BlockOffset(piece: nat, offset: nat)

  datatype BlockDesc = BlockDesc(start: BlockOffset, size: nat)

  datatype Dimension = Dimension(
    numPieces: nat, pieceSize: nat, lastPieceSize: nat, size: nat, blockSize: nat, end: BlockOffset)

  /** The derived order: by piece, then by offset. */
  predicate Less(a: BlockOffset, b: BlockOffset) {
    a.piece < b.piece || (a.piece == b.piece && a.offset < b.offset)
  }

  function ToScalar(o: BlockOffset, pieceSize: nat): nat
    requires o.offset < pieceSize
  {
    o.piece * pieceSize + o.offset
  }

  function AddScalar(o: BlockOffset, n: nat, pieceSize: nat): BlockOffset
    requires o.offset < pieceSize
  {
    BlockOffset(o.piece + (o.offset + n) / pieceSize, (o.offset + n) % pieceSize)
  }

  lemma MulLess(a: nat, b: nat, n: nat)
    requires a < b
    ensures a * n + n <= b * n
  {
    assert b * n == a * n + (b - a) * n;
    assert (b - a) * n >= n by {
      assert (b - a) * n == n + (b - a - 1) * n;
    }
  }

  /** The order of offsets is the order of the positions they name. */
  lemma OrderIsScalarOrder(a: BlockOffset, b: BlockOffset, pieceSize: nat)
    requires a.offset < pieceSize && b.offset < pieceSize
    ensures Less(a, b) <==> ToScalar(a, pieceSize) < ToScalar(b, pieceSize)
    ensures a == b <==> ToScalar(a, pieceSize) == ToScalar(b, pieceSize)
  {
    if a.piece < b.piece {
      MulLess(a.piece, b.piece, pieceSize);
    } else if b.piece < a.piece {
      MulLess(b.piece, a.piece, pieceSize);
    }
  }

  /** Advancing an offset is addition. */
  lemma AddScalarAdds(o: BlockOffset, n: nat, pieceSize: nat)
    requires o.offset < pieceSize
    ensures AddScalar(o, n, pieceSize).offset < pieceSize
    ensures ToScalar(AddScalar(o, n, pieceSize), pieceSize) == ToScalar(o, pieceSize) + n
  {
    var sum := o.offset + n;
    var q, r := sum / pieceSize, sum % pieceSize;
    assert sum == q * pieceSize + r;
    assert (o.piece + q) * pieceSize == o.piece * pieceSize + q * pieceSize;
  }

  /** What the constructor of the source asserts of its arguments. */
  ghost predicate Dimensional(numPieces: nat, pieceSize: nat, size: nat, blockSize: nat) {
    && numPieces > 0 && pieceSize > 0 && size > 0 && blockSize > 0
    && (numPieces - 1) * pieceSize < size <= numPieces * pieceSize
  }

  function NewDimension(numPieces: nat, pieceSize: nat, size: nat, blockSize: nat): Dimension
    requires Dimensional(numPieces, pieceSize, size, blockSize)
  {
    Dimension(numPieces, pieceSize, size - (numPieces - 1) * pieceSize, size, blockSize,
              BlockOffset(size / pieceSize, size % pieceSize))
  }

  ghost predicate Valid(dim: Dimension) {
    && Dimensional(dim.numPieces, dim.pieceSize, dim.size, dim.blockSize)
    && dim == NewDimension(dim.numPieces, dim.pieceSize, dim.size, dim.blockSize)
  }

  predicate CheckBlockOffset(dim: Dimension, o: BlockOffset) {
    !Less(dim.end, o) && o.offset < dim.pieceSize
  }

  function CheckedPieceSize(dim: Dimension, piece: nat): Option<nat> {
    if piece + 1 < dim.numPieces then Some(dim.pieceSize)
    else if piece + 1 == dim.numPieces then Some(dim.lastPieceSize)
    else None
  }

  predicate CheckBlockDesc(dim: Dimension, desc: BlockDesc) {
    && CheckBlockOffset(dim, desc.start)
    && desc.size <= dim.blockSize
    && desc.start.offset + desc.size <=
       match CheckedPieceSize(dim, desc.start.piece) case None => 0 case Some(n) => n
  }

  lemma EndIsSize(dim: Dimension)
    requires Valid(dim)
    ensures dim.end.offset < dim.pieceSize && ToScalar(dim.end, dim.pieceSize) == dim.size
  {
  }

  /** A piece lies inside the torrent. */
  lemma PieceInside(dim: Dimension, piece: nat)
    requires Valid(dim) && piece < dim.numPieces
    ensures CheckedPieceSize(dim, piece).Some?
    ensures 0 < CheckedPieceSize(dim, piece).value <= dim.pieceSize
    ensures piece * dim.pieceSize + CheckedPieceSize(dim, piece).value <= dim.size
  {
    var n := dim.numPieces;
    assert n * dim.pieceSize == (n - 1) * dim.pieceSize + dim.pieceSize;
    if piece + 1 < n {
      MulLess(piece, n - 1, dim.pieceSize);
    }
  }

  /** The pieces tile the torrent: each ends where the next begins, the last one at the end. */
  lemma PiecesTile(dim: Dimension, piece: nat)
    requires Valid(dim)
    ensures CheckedPieceSize(dim, piece).Some? <==> piece < dim.numPieces
    ensures piece < dim.numPieces ==>
              piece * dim.pieceSize + CheckedPieceSize(dim, piece).value == Min((piece + 1) * dim.pieceSize, dim.size)
  {
    if piece < dim.numPieces {
      PieceInside(dim, piece);
      assert (piece + 1) * dim.pieceSize == piece * dim.pieceSize + dim.pieceSize;
    }
  }

  /** A checked block lies inside its piece and inside the torrent; past the last
      piece only an empty block passes the check. */
  lemma CheckedBlockInside(dim: Dimension, desc: BlockDesc)
    requires Valid(dim) && CheckBlockDesc(dim, desc)
    ensures ToScalar(desc.start, dim.pieceSize) + desc.size <= dim.size
    ensures desc.size > 0 ==> desc.start.piece < dim.numPieces
  {
    if desc.start.piece < dim.numPieces {
      PieceInside(dim, desc.start.piece);
    } else {
      EndIsSize(dim);
      OrderIsScalarOrder(dim.end, desc.start, dim.pieceSize);
    }
  }

  /** The check, as a caller would put it: the block is small enough and lies in one
      piece, or is the empty block at the very end. */
  lemma CheckBlockDescExactly(dim: Dimension, desc: BlockDesc)
    requires Valid(dim)
    ensures CheckBlockDesc(dim, desc) <==>
              && desc.start.offset < dim.pieceSize
              && desc.size <= dim.blockSize
              && (if desc.start.piece < dim.numPieces
                  then desc.start.offset + desc.size <= CheckedPieceSize(dim, desc.start.piece).value
                  else desc.size == 0 && ToScalar(desc.start, dim.pieceSize) == dim.size)
  {
    var ps := dim.pieceSize;
    EndIsSize(dim);
    if desc.start.offset < ps {
      OrderIsScalarOrder(dim.end, desc.start, ps);
      if desc.start.piece < dim.numPieces {
        PieceInside(dim, desc.start.piece);
      } else {
        assert desc.start.piece * ps >= dim.numPieces * ps by {
          if desc.start.piece > dim.numPieces {
            MulLess(dim.numPieces, desc.start.piece, ps);
          }
        }
      }
    }
  }

  // ---- The blocks of a piece ----

  /** The blocks from `offset` on; all but the last have the full block size. */
  function BlocksFrom(dim: Dimension, piece: nat, offset: nat, pieceSize: nat): seq<BlockDesc>
    requires dim.blockSize > 0
    decreases if offset < pieceSize then pieceSize - offset else 0
  {
    if offset >= pieceSize then []
    else
      var size := Min(pieceSize - offset, dim.blockSize);
      [BlockDesc(BlockOffset(piece, offset), size)] + BlocksFrom(dim, piece, offset + size, pieceSize)
  }

  method BlockDescs(dim: Dimension, piece: nat) returns (descs: seq<BlockDesc>)
    requires Valid(dim) && piece < dim.numPieces
    ensures descs == BlocksFrom(dim, piece, 0, CheckedPieceSize(dim, piece).value)
  {
    PieceInside(dim, piece);
    var pieceSize := CheckedPieceSize(dim, piece).value;
    var offset := 0;
    descs := [];
    while offset < pieceSize
      invariant offset <= pieceSize
      invariant descs + BlocksFrom(dim, piece, offset, pieceSize) == BlocksFrom(dim, piece, 0, pieceSize)
    {
      var size := Min(pieceSize - offset, dim.blockSize);
      descs := descs + [BlockDesc(BlockOffset(piece, offset), size)];
      offset := offset + size;
    }
  }

  /** Every block of a piece passes the check, all but the last have the full size, and
      they follow one another without gap from `offset` to the end of the piece. */
  lemma {:induction false} BlocksTilePiece(dim: Dimension, piece: nat, offset: nat)
    requires Valid(dim) && piece < dim.numPieces
    requires offset <= CheckedPieceSize(dim, piece).value
    ensures var bs := BlocksFrom(dim, piece, offset, CheckedPieceSize(dim, piece).value);
            && (forall k :: 0 <= k < |bs| ==>
                  CheckBlockDesc(dim, bs[k]) && bs[k].size > 0 && bs[k].start.piece == piece)
            && (forall k :: 0 <= k < |bs| - 1 ==>
                  bs[k].size == dim.blockSize && bs[k + 1].start.offset == bs[k].start.offset + bs[k].size)
            && (bs == [] <==> offset == CheckedPieceSize(dim, piece).value)
            && (bs != [] ==> bs[0].start.offset == offset
                             && bs[|bs| - 1].start.offset + bs[|bs| - 1].size == CheckedPieceSize(dim, piece).value)
    decreases CheckedPieceSize(dim, piece).value - offset
  {
    var pieceSize := CheckedPieceSize(dim, piece).value;
    PieceInside(dim, piece);
    if offset < pieceSize {
      var size := Min(pieceSize - offset, dim.blockSize);
      BlocksTilePiece(dim, piece, offset + size);
      CheckBlockDescExactly(dim, BlockDesc(BlockOffset(piece, offset), size));
    }
  }
}
