/**
  Scheduling all peers and scheduling all pieces
  (rust/bittorrent/transceiver/src/schedule.rs asks whether they are equivalent).  Both
  go over the same grid of pairs, one by rows and one by columns.
 */
module ScheduleEquivalence {
  import opened Common
  import opened Sorting
  import opened Schedules
  import opened ScheduleRuns

  /** One pair of the grid: assigned if it may be. */
  function Cell(st: State, peer: Peer, piece: Piece, now: nat): State {
    if MayAssign(st, peer, piece, now)
    then st.(assignments := st.assignments + {(peer, piece)}, updated := st.updated + {peer})
    else st
  }

  function Row(st: State, peer: Peer, pieces: seq<Piece>, now: nat): State
    decreases |pieces|
  {
    if pieces == [] then st else Row(Cell(st, peer, pieces[0], now), peer, pieces[1..], now)
  }

  function Column(st: State, order: seq<Peer>, piece: Piece, now: nat): State
    decreases |order|
  {
    if order == [] then st else Column(Cell(st, order[0], piece, now), order[1..], piece, now)
  }

  function Rows(st: State, order: seq<Peer>, pieces: seq<Piece>, now: nat): State
    decreases |order|
  {
    if order == [] then st else Rows(Row(st, order[0], pieces, now), order[1..], pieces, now)
  }

  function Columns(st: State, order: seq<Peer>, pieces: seq<Piece>, now: nat): State
    decreases |pieces|
  {
    if pieces == [] then st else Columns(Column(st, order, pieces[0], now), order, pieces[1..], now)
  }

  // ---- The order of the grid does not matter ----

  lemma CellElsewhere(st: State, p: Peer, x: Piece, q: Peer, y: Piece, now: nat)
    requires p != q && x != y
    ensures MayAssign(Cell(st, p, x, now), q, y, now) == MayAssign(st, q, y, now)
  {
    if MayAssign(st, p, x, now) {
      PiecesAfterAssign(st.assignments, p, x, q);
      PeersAfterAssign(st.assignments, p, x, y);
    }
  }

  lemma CellsCommute(st: State, p: Peer, x: Piece, q: Peer, y: Piece, now: nat)
    requires p != q && x != y
    ensures Cell(Cell(st, p, x, now), q, y, now) == Cell(Cell(st, q, y, now), p, x, now)
  {
    CellElsewhere(st, p, x, q, y, now);
    CellElsewhere(st, q, y, p, x, now);
    var g, e, f := st.assignments, (p, x), (q, y);
    assert g + {e} + {f} == g + {f} + {e};
    assert st.updated + {p} + {q} == st.updated + {q} + {p};
  }

  lemma {:induction false} CellPastRow(st: State, q: Peer, y: Piece, p: Peer, pieces: seq<Piece>, now: nat)
    requires p != q && y !in pieces
    ensures Row(Cell(st, q, y, now), p, pieces, now) == Cell(Row(st, p, pieces, now), q, y, now)
    decreases |pieces|
  {
    if pieces != [] {
      CellsCommute(st, q, y, p, pieces[0], now);
      CellPastRow(Cell(st, p, pieces[0], now), q, y, p, pieces[1..], now);
    }
  }

  lemma {:induction false} ColumnPastRow(st: State, order: seq<Peer>, y: Piece, p: Peer, pieces: seq<Piece>, now: nat)
    requires p !in order && y !in pieces
    ensures Row(Column(st, order, y, now), p, pieces, now) == Column(Row(st, p, pieces, now), order, y, now)
    decreases |order|
  {
    if order != [] {
      CellPastRow(st, order[0], y, p, pieces, now);
      ColumnPastRow(Cell(st, order[0], y, now), order[1..], y, p, pieces, now);
    }
  }

  lemma {:induction false} FirstRow(st: State, order: seq<Peer>, pieces: seq<Piece>, now: nat)
    requires order != [] && Distinct(order) && Distinct(pieces)
    ensures Columns(st, order, pieces, now) == Columns(Row(st, order[0], pieces, now), order[1..], pieces, now)
    decreases |pieces|
  {
    if pieces != [] {
      var p, rest, x, later := order[0], order[1..], pieces[0], pieces[1..];
      var st1 := Cell(st, p, x, now);
      FirstRow(Column(st1, rest, x, now), order, later, now);
      ColumnPastRow(st1, rest, x, p, later, now);
    }
  }

  /** Row by row is column by column. */
  lemma {:induction false} RowsAreColumns(st: State, order: seq<Peer>, pieces: seq<Piece>, now: nat)
    requires Distinct(order) && Distinct(pieces)
    ensures Rows(st, order, pieces, now) == Columns(st, order, pieces, now)
    decreases |order|
  {
    if order == [] {
      NoRows(st, pieces, now);
    } else {
      RowsAreColumns(Row(st, order[0], pieces, now), order[1..], pieces, now);
      FirstRow(st, order, pieces, now);
    }
  }

  lemma {:induction false} NoRows(st: State, pieces: seq<Piece>, now: nat)
    ensures Columns(st, [], pieces, now) == st
    decreases |pieces|
  {
    if pieces != [] {
      NoRows(st, pieces[1..], now);
    }
  }

  // ---- Filling up a peer is a row ----

  function Filled(st: State, peer: Peer, chosen: seq<Piece>): State {
    st.(assignments := st.assignments + Edges(peer, chosen),
        updated := if chosen == [] then st.updated else st.updated + {peer})
  }

  lemma {:induction false} EligibleAfterCell(st: State, p: Peer, x: Piece, pieces: seq<Piece>, now: nat)
    requires MayAssign(st, p, x, now) && x !in pieces && NumAssignments(st, p) + 1 < st.maxAssignments
    ensures EligiblePieces(Cell(st, p, x, now), p, pieces, now) == EligiblePieces(st, p, pieces, now)
    decreases |pieces|
  {
    if pieces != [] {
      PiecesAfterAssign(st.assignments, p, x, p);
      PeersAfterAssign(st.assignments, p, x, pieces[0]);
      EligibleAfterCell(st, p, x, pieces[1..], now);
    }
  }

  lemma FilledOneMore(st: State, p: Peer, x: Piece, more: seq<Piece>, now: nat)
    requires MayAssign(st, p, x, now)
    ensures Filled(Cell(st, p, x, now), p, more) == Filled(st, p, [x] + more)
  {
    assert st.assignments + {(p, x)} + Edges(p, more) == st.assignments + Edges(p, [x] + more);
    assert st.updated + {p} + {p} == st.updated + {p};
  }

  /** The pieces of the list that filling up the peer would choose. */
  function ChosenFrom(st: State, p: Peer, pieces: seq<Piece>, now: nat): seq<Piece> {
    Take(EligiblePieces(st, p, pieces, now), Minus(st.maxAssignments, NumAssignments(st, p)))
  }

  lemma ChosenStep(st: State, p: Peer, x: Piece, rest: seq<Piece>, now: nat)
    requires x !in rest
    ensures ChosenFrom(st, p, [x] + rest, now) ==
            (if MayAssign(st, p, x, now) then [x] else []) + ChosenFrom(Cell(st, p, x, now), p, rest, now)
  {
    assert ([x] + rest)[1..] == rest;
    var eligible := EligiblePieces(st, p, rest, now);
    if MayAssign(st, p, x, now) {
      var k := st.maxAssignments - NumAssignments(st, p);
      PiecesAfterAssign(st.assignments, p, x, p);
      if k > 1 {
        EligibleAfterCell(st, p, x, rest, now);
      }
      TakeCons(x, eligible, k);
    } else {
      assert [] + eligible == eligible;
    }
  }

  lemma {:induction false} RowIs(st: State, p: Peer, pieces: seq<Piece>, now: nat)
    requires Distinct(pieces)
    ensures Row(st, p, pieces, now) == Filled(st, p, ChosenFrom(st, p, pieces, now))
    decreases |pieces|
  {
    if pieces == [] {
      assert st.assignments + Edges(p, []) == st.assignments;
    } else {
      var x, rest := pieces[0], pieces[1..];
      var st1 := Cell(st, p, x, now);
      RowIs(st1, p, rest, now);
      assert pieces == [x] + rest;
      ChosenStep(st, p, x, rest, now);
      if MayAssign(st, p, x, now) {
        FilledOneMore(st, p, x, ChosenFrom(st1, p, rest, now), now);
      }
    }
  }

  lemma {:induction false} PeersAreRows(st: State, order: seq<Peer>, now: nat)
    requires Distinct(st.schedule)
    ensures SchedulePeersInOrder(st, order, now) == Rows(st, order, st.schedule, now)
    decreases |order|
  {
    if order != [] {
      RowIs(st, order[0], st.schedule, now);
      PeersAreRows(SchedulePeer(st, order[0], now), order[1..], now);
    }
  }

  // ---- Filling up a piece is a column ----

  /** The peers in the order to whom the piece may be assigned. */
  function EligibleIn(st: State, order: seq<Peer>, piece: Piece, now: nat): seq<Peer> {
    if order == [] then []
    else (if MayAssign(st, order[0], piece, now) then [order[0]] else []) + EligibleIn(st, order[1..], piece, now)
  }

  lemma {:induction false} EligibleInAfterCell(st: State, p: Peer, x: Piece, order: seq<Peer>, now: nat)
    requires MayAssign(st, p, x, now) && p !in order && NumReplicates(st, x) + 1 < st.maxReplicates
    ensures EligibleIn(Cell(st, p, x, now), order, x, now) == EligibleIn(st, order, x, now)
    decreases |order|
  {
    if order != [] {
      PiecesAfterAssign(st.assignments, p, x, order[0]);
      PeersAfterAssign(st.assignments, p, x, x);
      EligibleInAfterCell(st, p, x, order[1..], now);
    }
  }

  function Given(st: State, piece: Piece, chosen: seq<Peer>): State {
    st.(assignments := st.assignments + EdgesTo(chosen, piece), updated := st.updated + Elems(chosen))
  }

  lemma GivenOneMore(st: State, p: Peer, x: Piece, more: seq<Peer>, now: nat)
    requires MayAssign(st, p, x, now)
    ensures Given(Cell(st, p, x, now), x, more) == Given(st, x, [p] + more)
  {
    assert st.assignments + {(p, x)} + EdgesTo(more, x) == st.assignments + EdgesTo([p] + more, x);
    assert st.updated + {p} + Elems(more) == st.updated + Elems([p] + more);
  }

  /** The peers of the order that filling up the piece would choose. */
  function ChosenOf(st: State, order: seq<Peer>, x: Piece, now: nat): seq<Peer> {
    Take(EligibleIn(st, order, x, now), Minus(st.maxReplicates, NumReplicates(st, x)))
  }

  lemma ChosenOfStep(st: State, p: Peer, rest: seq<Peer>, x: Piece, now: nat)
    requires p !in rest
    ensures ChosenOf(st, [p] + rest, x, now) ==
            (if MayAssign(st, p, x, now) then [p] else []) + ChosenOf(Cell(st, p, x, now), rest, x, now)
  {
    assert ([p] + rest)[1..] == rest;
    var eligible := EligibleIn(st, rest, x, now);
    if MayAssign(st, p, x, now) {
      var k := st.maxReplicates - NumReplicates(st, x);
      PeersAfterAssign(st.assignments, p, x, x);
      if k > 1 {
        EligibleInAfterCell(st, p, x, rest, now);
      }
      TakeCons(p, eligible, k);
    } else {
      assert [] + eligible == eligible;
    }
  }

  lemma {:induction false} ColumnIs(st: State, order: seq<Peer>, x: Piece, now: nat)
    requires Distinct(order)
    ensures Column(st, order, x, now) == AssignPiece(st, x, EligibleIn(st, order, x, now))
    ensures Column(st, order, x, now) == Given(st, x, ChosenOf(st, order, x, now))
    decreases |order|
  {
    if order == [] {
      assert st.assignments + EdgesTo([], x) == st.assignments && st.updated + Elems([]) == st.updated;
    } else {
      var p, rest := order[0], order[1..];
      var st1 := Cell(st, p, x, now);
      ColumnIs(st1, rest, x, now);
      assert order == [p] + rest;
      ChosenOfStep(st, p, rest, x, now);
      if MayAssign(st, p, x, now) {
        GivenOneMore(st, p, x, ChosenOf(st1, rest, x, now), now);
      }
    }
  }

  // The order lists all owners, by ascending ownership.
  ghost predicate ListsOwners(order: seq<Peer>, peerPieces: Graph) {
    Distinct(order) && PeerOrder(order, Peers(peerPieces), peerPieces)
  }

  lemma {:induction false} EligibleInMember(st: State, order: seq<Peer>, piece: Piece, now: nat, peer: Peer)
    ensures peer in EligibleIn(st, order, piece, now) <==> peer in order && MayAssign(st, peer, piece, now)
  {
    if order != [] {
      EligibleInMember(st, order[1..], piece, now, peer);
    }
  }

  lemma {:induction false} EligibleInOrdered(st: State, order: seq<Peer>, piece: Piece, now: nat, key: Peer -> int)
    requires Distinct(order) && Sorted(order, key)
    ensures Distinct(EligibleIn(st, order, piece, now)) && Sorted(EligibleIn(st, order, piece, now), key)
  {
    if order != [] {
      var rest := EligibleIn(st, order[1..], piece, now);
      EligibleInOrdered(st, order[1..], piece, now, key);
      forall k | 0 <= k < |rest| ensures rest[k] != order[0] && key(order[0]) <= key(rest[k]) {
        EligibleInMember(st, order[1..], piece, now, rest[k]);
      }
    }
  }

  lemma ColumnIsAStep(st: State, order: seq<Peer>, piece: Piece, now: nat)
    requires ListsOwners(order, st.peerPieces)
    ensures SchedulePieceStep(st, piece, now, Column(st, order, piece, now))
  {
    ColumnIs(st, order, piece, now);
    EligibleInOrdered(st, order, piece, now, OwnershipKey(st.peerPieces));
    EligibleInAll(st, order, piece, now);
  }

  lemma EligibleInAll(st: State, order: seq<Peer>, piece: Piece, now: nat)
    requires ListsOwners(order, st.peerPieces)
    ensures Elems(EligibleIn(st, order, piece, now)) == EligiblePeers(st, piece, now)
  {
    var eligible := EligibleIn(st, order, piece, now);
    forall q: Peer ensures q in Elems(eligible) <==> q in EligiblePeers(st, piece, now) {
      EligibleInMember(st, order, piece, now, q);
      if MayAssign(st, q, piece, now) {
        assert (q, piece) in st.peerPieces && q in Elems(order);
      }
    }
  }

  lemma {:induction false} ColumnsAreSteps(st: State, order: seq<Peer>, pieces: seq<Piece>, now: nat)
    requires ListsOwners(order, st.peerPieces)
    ensures SchedulePiecesStep(st, pieces, now, Columns(st, order, pieces, now))
    decreases |pieces|
  {
    if pieces == [] {
      NoPieces(st, now);
    } else {
      var m := Column(st, order, pieces[0], now);
      ColumnIsAStep(st, order, pieces[0], now);
      ColumnIs(st, order, pieces[0], now);
      ColumnsAreSteps(m, order, pieces[1..], now);
      FirstPiece(st, pieces, now, m, Columns(st, order, pieces, now));
    }
  }

  lemma FirstPiece(st: State, pieces: seq<Piece>, now: nat, m: State, st': State)
    requires pieces != [] && SchedulePieceStep(st, pieces[0], now, m) && SchedulePiecesStep(m, pieces[1..], now, st')
    ensures SchedulePiecesStep(st, pieces, now, st')
  {
    var sts :| PiecesTrace(m, pieces[1..], now, sts, st');
    var all := [st] + sts;
    forall k | 0 <= k < |pieces| ensures SchedulePieceStep(all[k], pieces[k], now, all[k + 1]) {
      if k > 0 {
        assert SchedulePieceStep(sts[k - 1], pieces[1..][k - 1], now, sts[k - 1 + 1]);
      }
    }
    assert PiecesTrace(st, pieces, now, all, st');
  }

  // ---- An order without repetitions ----

  function FirstOnes(order: seq<Peer>): seq<Peer> {
    if order == [] then []
    else
      var init, last := order[..|order| - 1], order[|order| - 1];
      FirstOnes(init) + if last in init then [] else [last]
  }

  lemma {:induction false} FirstOnesAre(order: seq<Peer>, key: Peer -> int)
    requires Sorted(order, key)
    ensures Distinct(FirstOnes(order)) && Elems(FirstOnes(order)) == Elems(order) && Sorted(FirstOnes(order), key)
  {
    if order != [] {
      var init, last := order[..|order| - 1], order[|order| - 1];
      FirstOnesAre(init, key);
      assert order == init + [last];
      var ones := FirstOnes(init);
      forall k | 0 <= k < |ones| ensures ones[k] in init && key(ones[k]) <= key(last) {
        assert ones[k] in Elems(init);
      }
      ElemsConcat(init, [last]);
      ElemsConcat(ones, if last in init then [] else [last]);
    }
  }

  lemma PeerAgain(st: State, order: seq<Peer>, peer: Peer, now: nat)
    requires Distinct(st.schedule) && peer in order
    ensures var m := SchedulePeersInOrder(st, order, now); SchedulePeer(m, peer, now) == m
  {
    var m := SchedulePeersInOrder(st, order, now);
    SchedulePeersClear(st, order, now, peer, 0);
    var eligible := EligiblePieces(m, peer, m.schedule, now);
    assert eligible == [] by {
      if eligible != [] {
        EligibleMember(m, peer, m.schedule, now, eligible[0]);
        SchedulePeersClear(st, order, now, peer, eligible[0]);
      }
    }
    assert m.assignments + Edges(peer, []) == m.assignments;
  }

  lemma FirstOnesSnoc(init: seq<Peer>, last: Peer)
    ensures FirstOnes(init + [last]) == if last in init then FirstOnes(init) else FirstOnes(init) + [last]
  {
    assert (init + [last])[..|init|] == init;
  }

  lemma {:induction false} RepetitionsDoNothing(st: State, order: seq<Peer>, now: nat)
    requires Distinct(st.schedule)
    ensures SchedulePeersInOrder(st, FirstOnes(order), now) == SchedulePeersInOrder(st, order, now)
  {
    if order != [] {
      var init, last := order[..|order| - 1], order[|order| - 1];
      assert order == init + [last];
      RepetitionsDoNothing(st, init, now);
      FirstOnesSnoc(init, last);
      SchedulePeersAppend(st, init, last, now);
      if last in init {
        PeerAgain(st, init, last, now);
      } else {
        SchedulePeersAppend(st, FirstOnes(init), last, now);
      }
    }
  }

  // ---- The two ways of scheduling everything ----

  /** All pieces, each given to its eligible peers in the same order. */
  function PiecesInOrder(st: State, order: seq<Peer>, pieces: seq<Piece>, now: nat): State
    decreases |pieces|
  {
    if pieces == [] then st
    else
      var m := AssignPiece(st, pieces[0], EligibleIn(st, order, pieces[0], now));
      PiecesInOrder(m, order, pieces[1..], now)
  }

  lemma {:induction false} ColumnsAreInOrder(st: State, order: seq<Peer>, pieces: seq<Piece>, now: nat)
    requires Distinct(order)
    ensures Columns(st, order, pieces, now) == PiecesInOrder(st, order, pieces, now)
    decreases |pieces|
  {
    if pieces != [] {
      ColumnIs(st, order, pieces[0], now);
      ColumnsAreInOrder(Column(st, order, pieces[0], now), order, pieces[1..], now);
    }
  }

  lemma OneOrder(st: State, order: seq<Peer>, now: nat)
    requires Distinct(st.schedule) && Distinct(order)
    ensures SchedulePeersInOrder(st, order, now) == Columns(st, order, st.schedule, now)
         == PiecesInOrder(st, order, st.schedule, now)
  {
    PeersAreRows(st, order, now);
    RowsAreColumns(st, order, st.schedule, now);
    ColumnsAreInOrder(st, order, st.schedule, now);
  }

  ghost predicate TiesBrokenAlike(st: State, now: nat, st': State) {
    exists order :: ListsOwners(order, st.peerPieces) && st' == PiecesInOrder(st, order, st.schedule, now)
  }

  /** Scheduling all peers is exactly scheduling all pieces with ties broken in the same
      way for every piece. */
  lemma PeersExactly(st: State, now: nat, st': State)
    requires Distinct(st.schedule)
    ensures SchedulePeersStep(st, Peers(st.peerPieces), now, st') <==> TiesBrokenAlike(st, now, st')
  {
    if order: seq<Peer> :|
        PeerOrder(order, Peers(st.peerPieces), st.peerPieces) && st' == SchedulePeersInOrder(st, order, now) {
      FirstOnesAre(order, OwnershipKey(st.peerPieces));
      RepetitionsDoNothing(st, order, now);
      OneOrder(st, FirstOnes(order), now);
      assert ListsOwners(FirstOnes(order), st.peerPieces);
    }
    if order :| ListsOwners(order, st.peerPieces) && st' == PiecesInOrder(st, order, st.schedule, now) {
      OneOrder(st, order, now);
    }
  }

  /** So whatever scheduling all peers does, scheduling all pieces can do. */
  lemma PeersToPieces(st: State, now: nat, st': State)
    requires Distinct(st.schedule) && SchedulePeersStep(st, Peers(st.peerPieces), now, st')
    ensures SchedulePiecesStep(st, st.schedule, now, st')
  {
    PeersExactly(st, now, st');
    var order :| ListsOwners(order, st.peerPieces) && st' == PiecesInOrder(st, order, st.schedule, now);
    OneOrder(st, order, now);
    ColumnsAreSteps(st, order, st.schedule, now);
  }

  /** No two owners own equally many pieces. */
  ghost predicate NoTies(peerPieces: Graph) {
    forall p: Peer, q: Peer :: p in Peers(peerPieces) && q in Peers(peerPieces) && p != q ==>
      OwnershipKey(peerPieces)(p) != OwnershipKey(peerPieces)(q)
  }

  lemma {:induction false} Multiplicity(a: seq<nat>, x: nat)
    requires Distinct(a)
    ensures multiset(a)[x] == if x in a then 1 else 0
  {
    if a != [] {
      Multiplicity(a[1..], x);
      assert a == [a[0]] + a[1..];
    }
  }

  lemma SameElemsSameOrder(a: seq<Peer>, b: seq<Peer>, key: Peer -> int)
    requires Distinct(a) && Distinct(b) && Elems(a) == Elems(b)
    requires Sorted(a, key) && Sorted(b, key) && DistinctKeys(a, key)
    ensures a == b
  {
    forall x: nat ensures multiset(a)[x] == multiset(b)[x] {
      Multiplicity(a, x);
      Multiplicity(b, x);
      assert x in a <==> x in Elems(a);
      assert x in b <==> x in Elems(b);
    }
    assert multiset(a) == multiset(b);
    SortedIsUnique(a, b, key);
  }

  // Without ties there is only one way to fill up a piece.
  lemma OnlyColumn(st: State, order: seq<Peer>, piece: Piece, now: nat, st': State)
    requires ListsOwners(order, st.peerPieces) && NoTies(st.peerPieces) && SchedulePieceStep(st, piece, now, st')
    ensures st' == Column(st, order, piece, now)
  {
    var key := OwnershipKey(st.peerPieces);
    var other: seq<Peer> :|
      && Distinct(other) && PeerOrder(other, EligiblePeers(st, piece, now), st.peerPieces)
      && st' == AssignPiece(st, piece, other);
    var eligible := EligibleIn(st, order, piece, now);
    ColumnIs(st, order, piece, now);
    EligibleInOrdered(st, order, piece, now, key);
    EligibleInAll(st, order, piece, now);
    forall i, j | 0 <= i < j < |other| ensures key(other[i]) != key(other[j]) {
      assert other[i] in Elems(other) && other[j] in Elems(other);
    }
    SameElemsSameOrder(other, eligible, key);
  }

  lemma {:induction false} ColumnsAppend(st: State, order: seq<Peer>, pieces: seq<Piece>, x: Piece, now: nat)
    ensures Columns(st, order, pieces + [x], now) == Column(Columns(st, order, pieces, now), order, x, now)
    decreases |pieces|
  {
    if pieces == [] {
      assert [] + [x] == [x] && [x][1..] == [];
    } else {
      assert (pieces + [x])[1..] == pieces[1..] + [x];
      ColumnsAppend(Column(st, order, pieces[0], now), order, pieces[1..], x, now);
    }
  }

  lemma {:induction false} OnlyColumns(st: State, order: seq<Peer>, pieces: seq<Piece>, now: nat, st': State)
    requires ListsOwners(order, st.peerPieces) && NoTies(st.peerPieces) && SchedulePiecesStep(st, pieces, now, st')
    ensures st' == Columns(st, order, pieces, now)
    decreases |pieces|
  {
    if pieces == [] {
      var sts :| PiecesTrace(st, pieces, now, sts, st');
    } else {
      var init, last := pieces[..|pieces| - 1], pieces[|pieces| - 1];
      assert pieces == init + [last];
      var m := LastPiece(st, pieces, now, st');
      SchedulePiecesClear(st, init, now, m, 0, 0);
      OnlyColumns(st, order, init, now, m);
      OneMoreColumn(st, order, init, last, now, m, st');
    }
  }

  lemma OneMoreColumn(st: State, order: seq<Peer>, pieces: seq<Piece>, x: Piece, now: nat, m: State, st': State)
    requires ListsOwners(order, m.peerPieces) && NoTies(m.peerPieces)
    requires m == Columns(st, order, pieces, now) && SchedulePieceStep(m, x, now, st')
    ensures st' == Columns(st, order, pieces + [x], now)
  {
    OnlyColumn(m, order, x, now, st');
    ColumnsAppend(st, order, pieces, x, now);
  }

  lemma {:induction false} Listing(s: set<nat>) returns (listed: seq<nat>)
    ensures Distinct(listed) && Elems(listed) == s
  {
    if s == {} {
      listed := [];
    } else {
      var x :| x in s;
      var rest := Listing(s - {x});
      listed := [x] + rest;
      ElemsConcat([x], rest);
      forall k | 0 <= k < |rest| ensures rest[k] != x {
        assert rest[k] in Elems(rest);
      }
    }
  }

  /** Where no two owners own equally many pieces, scheduling all peers and scheduling all
      pieces do exactly the same. */
  lemma PeersOrPieces(st: State, now: nat, st': State)
    requires Distinct(st.schedule) && NoTies(st.peerPieces)
    ensures SchedulePeersStep(st, Peers(st.peerPieces), now, st') <==> SchedulePiecesStep(st, st.schedule, now, st')
  {
    if SchedulePeersStep(st, Peers(st.peerPieces), now, st') {
      PeersToPieces(st, now, st');
    }
    if SchedulePiecesStep(st, st.schedule, now, st') {
      var listed := Listing(Peers(st.peerPieces));
      var order: seq<Peer> := SortBy(listed, OwnershipKey(st.peerPieces));
      SortKeepsElems(listed, OwnershipKey(st.peerPieces));
      OnlyColumns(st, order, st.schedule, now, st');
      RowsAreColumns(st, order, st.schedule, now);
      PeersAreRows(st, order, now);
    }
  }

  // ---- A tie ----

  /** Two peers that own the same two pieces. */
  const TIED: State :=
    State(2, {(0, 0), (0, 1), (1, 0), (1, 1)}, [0, 1], {}, 2, 1, {}, map[])

  /** Each peer has one of the pieces. */
  const SHARED: State := TIED.(assignments := {(0, 0), (1, 1)}, updated := {0, 1})

  lemma TiedMay(peer: Peer, piece: Piece, now: nat)
    requires peer < 2 && piece < 2
    ensures MayAssign(TIED, peer, piece, now)
  {
    assert PiecesOf({}, peer) == {} && PeersOf({}, piece) == {};
  }

  lemma TiedOwners(order: seq<Peer>)
    ensures Peers(TIED.peerPieces) == {0, 1}
    ensures Elems(order) <= {0, 1} ==> Sorted(order, OwnershipKey(TIED.peerPieces))
  {
    var g := TIED.peerPieces;
    assert (0, 0) in g && (1, 1) in g && (0, 1) in g && (1, 0) in g;
    assert Peers(g) == {0, 1};
    assert PiecesOf(g, 0) == {0, 1} && PiecesOf(g, 1) == {0, 1};
    if Elems(order) <= {0, 1} {
      forall k | 0 <= k < |order| ensures OwnershipKey(g)(order[k]) == 2 {
        assert order[k] in Elems(order);
      }
    }
  }

  // The peer that comes first takes both pieces.
  lemma FirstTakesAll(peer: Peer, rest: seq<Peer>, now: nat)
    requires peer < 2
    ensures {(peer, 0), (peer, 1)} <= SchedulePeersInOrder(TIED, [peer] + rest, now).assignments
  {
    TiedMay(peer, 0, now);
    TiedMay(peer, 1, now);
    assert PiecesOf({}, peer) == {};
    assert [0, 1][1..] == [1] && [1][1..] == [];
    assert EligiblePieces(TIED, peer, [1], now) == [1];
    assert EligiblePieces(TIED, peer, [0, 1], now) == [0, 1];
    var m := SchedulePeer(TIED, peer, now);
    assert ChosenPieces(TIED, peer, now) == [0, 1];
    assert (peer, 0) in Edges(peer, [0, 1]) && (peer, 1) in Edges(peer, [0, 1]);
    assert ([peer] + rest)[1..] == rest;
    SchedulePeersClear(m, rest, now, peer, 0);
  }

  lemma NotInOrder(order: seq<Peer>, now: nat)
    requires Elems(order) == {0, 1}
    ensures SchedulePeersInOrder(TIED, order, now).assignments != {(0, 0), (1, 1)}
  {
    assert 0 in Elems(order);
    assert order[0] in Elems(order);
    assert order == [order[0]] + order[1..];
    FirstTakesAll(order[0], order[1..], now);
  }

  lemma NotByPeers(now: nat)
    ensures !SchedulePeersStep(TIED, Peers(TIED.peerPieces), now, SHARED)
  {
    TiedOwners([]);
    forall order: seq<Peer> | PeerOrder(order, Peers(TIED.peerPieces), TIED.peerPieces)
      ensures SchedulePeersInOrder(TIED, order, now) != SHARED
    {
      NotInOrder(order, now);
    }
  }

  lemma ByPieces(now: nat)
    ensures SchedulePiecesStep(TIED, TIED.schedule, now, SHARED)
  {
    var m := TIED.(assignments := {(0, 0)}, updated := {0});
    TakesFirst(now, m);
    TakesSecond(now, m);
    TwoPieces(TIED, 0, 1, now, m, SHARED);
  }

  lemma TwoPieces(st: State, x: Piece, y: Piece, now: nat, m: State, st': State)
    requires SchedulePieceStep(st, x, now, m) && SchedulePieceStep(m, y, now, st')
    ensures SchedulePiecesStep(st, [x, y], now, st')
  {
    assert PiecesTrace(st, [x, y], now, [st, m, st'], st');
  }

  // With room for one, the first of two eligible peers gets the piece.
  lemma OneOfTwo(st: State, x: Piece, now: nat, p: Peer, q: Peer)
    requires p != q && EligiblePeers(st, x, now) == {p, q} && Minus(st.maxReplicates, NumReplicates(st, x)) == 1
    requires Sorted([p, q], OwnershipKey(st.peerPieces))
    ensures SchedulePieceStep(st, x, now,
                              st.(assignments := st.assignments + {(p, x)}, updated := st.updated + {p}))
  {
    var order := [p, q];
    assert Elems(order) == {p, q};
    assert Take(order, 1) == [p] && EdgesTo([p], x) == {(p, x)} && Elems([p]) == {p};
    assert AssignPiece(st, x, order) == st.(assignments := st.assignments + {(p, x)}, updated := st.updated + {p});
  }

  lemma TakesFirst(now: nat, m: State)
    requires m == TIED.(assignments := {(0, 0)}, updated := {0})
    ensures SchedulePieceStep(TIED, 0, now, m)
  {
    TiedMay(0, 0, now);
    TiedMay(1, 0, now);
    TiedOwners([0, 1]);
    assert Elems([0, 1]) == {0, 1};
    assert EligiblePeers(TIED, 0, now) == {0, 1} by {
      assert (0, 0) in TIED.peerPieces && (1, 0) in TIED.peerPieces;
    }
    assert PeersOf({}, 0) == {};
    OneOfTwo(TIED, 0, now, 0, 1);
    assert {} + {(0, 0)} == {(0, 0)} && {} + {0} == {0};
  }

  lemma TakesSecond(now: nat, m: State)
    requires m == TIED.(assignments := {(0, 0)}, updated := {0})
    ensures SchedulePieceStep(m, 1, now, SHARED)
  {
    TiedOwners([1, 0]);
    assert Elems([1, 0]) == {0, 1};
    SecondEligible(now, m);
    OneOfTwo(m, 1, now, 1, 0);
    assert {(0, 0)} + {(1, 1)} == {(0, 0), (1, 1)} && {0} + {1} == {0, 1};
  }

  lemma SecondEligible(now: nat, m: State)
    requires m == TIED.(assignments := {(0, 0)}, updated := {0})
    ensures EligiblePeers(m, 1, now) == {1, 0} && NumReplicates(m, 1) == 0
  {
    assert PeersOf(m.assignments, 1) == {} && PiecesOf(m.assignments, 1) == {} && PiecesOf(m.assignments, 0) == {0};
    assert (0, 1) in m.peerPieces && (1, 1) in m.peerPieces;
    assert MayAssign(m, 0, 1, now) && MayAssign(m, 1, 1, now);
  }

  /** With a tie the two differ: pieces may go to the tied peers in different orders. */
  lemma TiesTellThemApart(now: nat)
    ensures SchedulePiecesStep(TIED, TIED.schedule, now, SHARED)
    ensures !SchedulePeersStep(TIED, Peers(TIED.peerPieces), now, SHARED)
  {
    ByPieces(now);
    NotByPeers(now);
  }
}
