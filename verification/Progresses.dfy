/**
  What of a piece is still missing (rust/bittorrent/transceiver/src/progress.rs):
  a vector of ranges from which every received block is hollowed out.
 */
module Progresses {
  import opened Common
  import opened Dimensions

  datatype Range = Range(start: nat, end: nat)

  predicate Within(r: Range, x: nat) {
    r.start <= x < r.end
  }

  ghost function Span(r: Range): set<nat> {
    set x: nat | x < r.end && Within(r, x)
  }

  ghost function Bytes(ranges: seq<Range>): set<nat> {
    if ranges == [] then {} else Span(ranges[0]) + Bytes(ranges[1..])
  }

  ghost function Total(ranges: seq<Range>): int {
    if ranges == [] then 0 else RangeSize(ranges[0]) + Total(ranges[1..])
  }

  function RangeSize(r: Range): int {
    r.end - r.start
  }

  /** Sorted, free of empty ranges, and with a gap between any two. */
  ghost predicate Canonical(ranges: seq<Range>) {
    && (forall i :: 0 <= i < |ranges| ==> ranges[i].start < ranges[i].end)
    && (forall i, j :: 0 <= i < j < |ranges| ==> ranges[i].end < ranges[j].start)
  }

  // ---- Ranges and the bytes they denote ----

  lemma {:induction false} SpanCard(r: Range)
    requires r.start <= r.end
    ensures |Span(r)| == RangeSize(r)
    decreases r.end
  {
    if r.start == r.end {
      assert Span(r) == {};
    } else {
      var s := Range(r.start, r.end - 1);
      SpanCard(s);
      var last: nat := r.end - 1;
      assert Within(r, last);
      forall x: nat ensures Within(r, x) <==> Within(s, x) || x == last {
      }
      assert Span(r) == Span(s) + {last};
    }
  }

  lemma {:induction false} BytesAre(ranges: seq<Range>, x: nat)
    ensures x in Bytes(ranges) <==> exists i :: 0 <= i < |ranges| && x in Span(ranges[i])
  {
    if ranges != [] {
      BytesAre(ranges[1..], x);
      if x in Bytes(ranges[1..]) {
        var i :| 0 <= i < |ranges[1..]| && x in Span(ranges[1..][i]);
        assert x in Span(ranges[i + 1]);
      }
      if i :| 0 <= i < |ranges| && x in Span(ranges[i]) {
        assert i > 0 ==> x in Span(ranges[1..][i - 1]);
      }
    }
  }

  lemma {:induction false} BytesAppend(a: seq<Range>, b: seq<Range>)
    ensures Bytes(a + b) == Bytes(a) + Bytes(b)
    ensures Total(a + b) == Total(a) + Total(b)
  {
    if a == [] {
      assert a + b == b;
    } else {
      BytesAppend(a[1..], b);
      assert (a + b)[1..] == a[1..] + b;
    }
  }

  // The head of a canonical list lies below everything after it, with a gap.
  lemma HeadBelow(ranges: seq<Range>, x: nat)
    requires Canonical(ranges) && ranges != [] && x in Bytes(ranges[1..])
    ensures ranges[0].end < x
  {
    BytesAre(ranges[1..], x);
    var i :| 0 <= i < |ranges[1..]| && x in Span(ranges[1..][i]);
    assert ranges[1..][i] == ranges[i + 1];
  }

  lemma CanonicalTail(ranges: seq<Range>)
    requires Canonical(ranges) && ranges != []
    ensures Canonical(ranges[1..])
  {
  }

  /** The total size is the number of bytes denoted. */
  lemma {:induction false} TotalCounts(ranges: seq<Range>)
    requires Canonical(ranges)
    ensures Total(ranges) == |Bytes(ranges)|
  {
    if ranges != [] {
      CanonicalTail(ranges);
      TotalCounts(ranges[1..]);
      SpanCard(ranges[0]);
      forall x | x in Bytes(ranges[1..]) ensures x !in Span(ranges[0]) {
        HeadBelow(ranges, x);
      }
      assert Span(ranges[0]) !! Bytes(ranges[1..]);
    }
  }

  lemma LeastByte(ranges: seq<Range>)
    requires Canonical(ranges) && ranges != []
    ensures ranges[0].start in Bytes(ranges)
    ensures forall x :: x in Bytes(ranges) ==> ranges[0].start <= x
    ensures ranges[0].end !in Bytes(ranges)
    ensures forall x: nat :: ranges[0].start <= x < ranges[0].end ==> x in Bytes(ranges)
  {
    forall x | x in Bytes(ranges[1..]) ensures ranges[0].end < x {
      HeadBelow(ranges, x);
    }
    assert ranges[0].start in Span(ranges[0]);
  }

  /** A canonical list is determined by the bytes it denotes. */
  lemma {:induction false} CanonicalIsUnique(a: seq<Range>, b: seq<Range>)
    requires Canonical(a) && Canonical(b) && Bytes(a) == Bytes(b)
    ensures a == b
  {
    if a == [] {
      if b != [] {
        LeastByte(b);
      }
    } else {
      LeastByte(a);
      if b != [] {
        LeastByte(b);
        assert a[0] == b[0];
        CanonicalTail(a);
        CanonicalTail(b);
        assert Bytes(a[1..]) == Bytes(a) - Span(a[0]) by {
          forall x | x in Bytes(a[1..]) ensures x !in Span(a[0]) { HeadBelow(a, x); }
        }
        assert Bytes(b[1..]) == Bytes(b) - Span(b[0]) by {
          forall x | x in Bytes(b[1..]) ensures x !in Span(b[0]) { HeadBelow(b, x); }
        }
        CanonicalIsUnique(a[1..], b[1..]);
      }
    }
  }

  // ---- Taking a block out ----

  function Exclude(p: Range, q: Range): Option<(Range, Range)> {
    var start, end := Max(p.start, q.start), Min(p.end, q.end);
    if start < end then Some((Range(p.start, start), Range(end, p.end))) else None
  }

  /** What is left of one range. */
  function Remainder(p: Range, q: Range): seq<Range> {
    match Exclude(p, q)
    case None => [p]
    case Some((left, right)) =>
      (if left.start < left.end then [left] else []) + (if right.start < right.end then [right] else [])
  }

  ghost function Hollowed(ranges: seq<Range>, q: Range): seq<Range> {
    if ranges == [] then [] else Remainder(ranges[0], q) + Hollowed(ranges[1..], q)
  }

  lemma RemainderIs(p: Range, q: Range)
    requires p.start < p.end
    ensures Bytes(Remainder(p, q)) == Span(p) - Span(q)
    ensures Canonical(Remainder(p, q))
    ensures forall r :: r in Remainder(p, q) ==> p.start <= r.start && r.end <= p.end
  {
    RemainderBytes(p, q);
    forall x: nat ensures x in Bytes(Remainder(p, q)) <==> x in Span(p) && x !in Span(q) {
      assert x in Span(p) <==> Within(p, x);
      assert x in Span(q) <==> Within(q, x);
    }
  }

  lemma RemainderBytes(p: Range, q: Range)
    ensures Bytes(Remainder(p, q)) ==
            match Exclude(p, q) case None => Span(p) case Some((left, right)) => Span(left) + Span(right)
  {
    match Exclude(p, q) {
      case None =>
        assert Remainder(p, q)[1..] == [];
      case Some((left, right)) =>
        assert left.start >= left.end ==> Span(left) == {};
        assert right.start >= right.end ==> Span(right) == {};
        BytesAppend(if left.start < left.end then [left] else [], if right.start < right.end then [right] else []);
        assert [left][1..] == [] && [right][1..] == [];
    }
  }

  // Everything in a list starts no earlier than a bound.
  ghost predicate From(ranges: seq<Range>, bound: nat) {
    forall r :: r in ranges ==> bound < r.start
  }

  lemma {:induction false} HollowedFrom(ranges: seq<Range>, q: Range, bound: nat)
    requires Canonical(ranges) && From(ranges, bound)
    ensures From(Hollowed(ranges, q), bound)
  {
    if ranges != [] {
      CanonicalTail(ranges);
      RemainderIs(ranges[0], q);
      HollowedFrom(ranges[1..], q, bound);
    }
  }

  lemma CanonicalJoin(a: seq<Range>, b: seq<Range>, bound: nat)
    requires Canonical(a) && Canonical(b) && From(b, bound)
    requires forall r :: r in a ==> r.end <= bound
    ensures Canonical(a + b)
  {
    var c := a + b;
    forall i, j | 0 <= i < j < |c| ensures c[i].end < c[j].start {
      if i < |a| <= j {
        assert c[i] in a && c[j] in b;
      }
    }
  }

  /** Hollowing out a block is exact set subtraction and keeps the list canonical. */
  lemma {:induction false} HollowedSubtracts(ranges: seq<Range>, q: Range)
    requires Canonical(ranges)
    ensures Canonical(Hollowed(ranges, q))
    ensures Bytes(Hollowed(ranges, q)) == Bytes(ranges) - Span(q)
  {
    if ranges != [] {
      var p := ranges[0];
      CanonicalTail(ranges);
      RemainderIs(p, q);
      HollowedSubtracts(ranges[1..], q);
      HollowedFrom(ranges[1..], q, p.end);
      BytesAppend(Remainder(p, q), Hollowed(ranges[1..], q));
      CanonicalJoin(Remainder(p, q), Hollowed(ranges[1..], q), p.end);
    }
  }

  lemma TotalOfFew(a: Range, b: Range)
    ensures Total([a]) == RangeSize(a)
    ensures Total([a, b]) == RangeSize(a) + RangeSize(b)
  {
    assert [a][1..] == [] && [a, b][1..] == [b] && [b][1..] == [];
  }

  lemma RemainderTotal(p: Range, q: Range)
    ensures Total(Remainder(p, q)) ==
            match Exclude(p, q)
            case None => RangeSize(p)
            case Some((left, right)) =>
              (if left.start < left.end then RangeSize(left) else 0)
              + (if right.start < right.end then RangeSize(right) else 0)
  {
    match Exclude(p, q) {
      case None =>
        TotalOfFew(p, p);
      case Some((left, right)) =>
        TotalOfFew(left, right);
        TotalOfFew(right, right);
        assert left.start < left.end && right.start < right.end ==> Remainder(p, q) == [left, right];
    }
  }

  /** The vector after one turn of the loop: the range at `i` gives way to what is
      left of it. */
  ghost function Turned(ranges: seq<Range>, i: nat, q: Range): seq<Range>
    requires i < |ranges|
  {
    ranges[..i] + Remainder(ranges[i], q) + ranges[i + 1..]
  }

  method HollowAt(ranges: seq<Range>, i: nat, q: Range) returns (edited: seq<Range>, next: nat, taken: nat)
    requires i < |ranges| && ranges[i].start < ranges[i].end
    ensures edited == Turned(ranges, i, q) && next == i + |Remainder(ranges[i], q)|
    ensures taken + Total(Remainder(ranges[i], q)) == RangeSize(ranges[i])
  {
    RemainderTotal(ranges[i], q);
    match Exclude(ranges[i], q) {
      case None =>
        edited, next, taken := ranges, i + 1, 0;
      case Some((left, right)) =>
        taken := RangeSize(ranges[i]) - RangeSize(left) - RangeSize(right);
        match (left.start < left.end, right.start < right.end) {
          case (false, false) =>
            edited, next := ranges[..i] + ranges[i + 1..], i;
          case (false, true) =>
            edited, next := ranges[i := right], i + 1;
          case (true, false) =>
            edited, next := ranges[i := left], i + 1;
          case (true, true) =>
            edited, next := ranges[..i] + [left] + [right] + ranges[i + 1..], i + 2;
        }
    }
  }

  // The part before `i` is done, the part from `i` on is still to be hollowed.
  ghost predicate Underway(original: seq<Range>, ranges: seq<Range>, i: nat, q: Range) {
    && i <= |ranges| && Canonical(ranges[i..])
    && ranges[..i] + Hollowed(ranges[i..], q) == Hollowed(original, q)
  }

  lemma TurnSplits(ranges: seq<Range>, i: nat, q: Range)
    requires i < |ranges|
    ensures var edited, next := Turned(ranges, i, q), i + |Remainder(ranges[i], q)|;
            && next <= |edited|
            && edited[..next] == ranges[..i] + Remainder(ranges[i], q)
            && edited[next..] == ranges[i..][1..]
            && Total(edited) - Total(Remainder(ranges[i], q)) == Total(ranges) - RangeSize(ranges[i])
  {
    TurnTotal(ranges[..i], ranges[i], ranges[i + 1..], Remainder(ranges[i], q));
    assert ranges[..i] + ([ranges[i]] + ranges[i + 1..]) == ranges;
  }

  lemma TurnKeeps(original: seq<Range>, ranges: seq<Range>, i: nat, q: Range)
    requires Underway(original, ranges, i, q) && i < |ranges|
    ensures ranges[i].start < ranges[i].end
    ensures Underway(original, Turned(ranges, i, q), i + |Remainder(ranges[i], q)|, q)
    ensures |Turned(ranges, i, q)| - |Remainder(ranges[i], q)| < |ranges|
    ensures Total(Turned(ranges, i, q)) - Total(Remainder(ranges[i], q)) == Total(ranges) - RangeSize(ranges[i])
  {
    var rest := ranges[i..];
    assert rest[0] == ranges[i];
    CanonicalTail(rest);
    TurnSplits(ranges, i, q);
    ConcatRanges(ranges[..i], Remainder(ranges[i], q), Hollowed(rest[1..], q));
  }

  lemma TurnTotal(before: seq<Range>, p: Range, after: seq<Range>, rest: seq<Range>)
    ensures Total(before + rest + after) == Total(before) + Total(rest) + Total(after)
    ensures Total(before + ([p] + after)) == Total(before) + RangeSize(p) + Total(after)
  {
    BytesAppend(before + rest, after);
    BytesAppend(before, rest);
    BytesAppend(before, [p] + after);
    assert ([p] + after)[1..] == after;
  }

  lemma HollowedTotal(ranges: seq<Range>, q: Range)
    requires Canonical(ranges)
    ensures Total(ranges) - Total(Hollowed(ranges, q)) == |Bytes(ranges) * Span(q)|
  {
    HollowedSubtracts(ranges, q);
    TotalCounts(ranges);
    TotalCounts(Hollowed(ranges, q));
    var kept, gone := Bytes(ranges) - Span(q), Bytes(ranges) * Span(q);
    assert kept !! gone && Bytes(ranges) == kept + gone;
  }

  lemma ConcatRanges(a: seq<Range>, b: seq<Range>, c: seq<Range>)
    ensures a + (b + c) == a + b + c
  {
  }

  /** The loop that edits the vector in place: it leaves exactly the bytes outside the
      block, in canonical form, and returns how many bytes it took out. */
  method HollowOut(original: seq<Range>, q: Range) returns (ranges: seq<Range>, amount: nat)
    requires Canonical(original)
    ensures ranges == Hollowed(original, q)
    ensures Canonical(ranges)
    ensures Bytes(ranges) == Bytes(original) - Span(q)
    ensures amount == |Bytes(original) * Span(q)|
  {
    ranges, amount := original, 0;
    var i: nat := 0;
    assert ranges[i..] == original;
    while i < |ranges|
      invariant Underway(original, ranges, i, q)
      invariant amount + Total(ranges) == Total(original)
      decreases |ranges| - i
    {
      TurnKeeps(original, ranges, i, q);
      var taken;
      ranges, i, taken := HollowAt(ranges, i, q);
      amount := amount + taken;
    }
    assert ranges[..i] + Hollowed(ranges[i..], q) == ranges;
    HollowedSubtracts(original, q);
    HollowedTotal(original, q);
  }

  function BlockRange(block: BlockDesc): Range {
    Range(block.start.offset, block.start.offset + block.size)
  }

  class Progress {
    var notYetReceived: seq<Range>
    const piece: nat

    constructor (dim: Dimension, piece: nat)
      requires Dimensions.Valid(dim) && piece < dim.numPieces
      ensures this.piece == piece
      ensures notYetReceived == [Range(0, CheckedPieceSize(dim, piece).value)] && Canonical(notYetReceived)
    {
      PieceInside(dim, piece);
      this.piece := piece;
      notYetReceived := [Range(0, CheckedPieceSize(dim, piece).value)];
    }

    /** A received block of this piece, of any size and wherever it lies, takes out
        exactly its bytes; the result is how many of them were still missing. */
    method Add(block: BlockDesc) returns (amount: nat)
      requires block.start.piece == piece && Canonical(notYetReceived)
      modifies this
      ensures Canonical(notYetReceived)
      ensures notYetReceived == Hollowed(old(notYetReceived), BlockRange(block))
      ensures forall x :: x in Bytes(notYetReceived) <==>
                x in old(Bytes(notYetReceived)) && !(block.start.offset <= x < block.start.offset + block.size)
      ensures amount == |old(Bytes(notYetReceived)) * Span(BlockRange(block))|
    {
      notYetReceived, amount := HollowOut(notYetReceived, BlockRange(block));
    }

    method IsCompleted() returns (done: bool)
      requires Canonical(notYetReceived)
      ensures done <==> Bytes(notYetReceived) == {}
    {
      done := notYetReceived == [];
      if !done {
        LeastByte(notYetReceived);
      }
    }
  }
}
