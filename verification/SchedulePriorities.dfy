/**
  Whom the scheduler prefers (rust/bittorrent/transceiver/src/schedule.rs): rare pieces
  and peers that own few.
 */
module SchedulePriorities {
  import opened Common
  import opened Sorting
  import opened Schedules
  import opened ScheduleRuns

  /** In how many peers' hands a piece is. */
  function Owners(g: Graph, x: Piece): nat {
    |set e | e in g && e.1 == x|
  }

  /** How many pieces a peer owns. */
  function Holdings(g: Graph, p: Peer): nat {
    |set e | e in g && e.0 == p|
  }

  lemma {:induction false} OwnersAre(g: Graph, x: Piece)
    ensures Owners(g, x) == |PeersOf(g, x)|
    decreases |set e | e in g && e.1 == x|
  {
    var edges := set e | e in g && e.1 == x;
    if edges == {} {
      assert forall e :: e in g && e.1 == x ==> e in edges;
      assert PeersOf(g, x) == {};
    } else {
      var e :| e in edges;
      var g' := g - {e};
      assert (set f | f in g' && f.1 == x) == edges - {e};
      OwnersAre(g', x);
      assert PeersOf(g', x) == PeersOf(g, x) - {e.0};
      assert e.0 in PeersOf(g, x);
    }
  }

  lemma {:induction false} HoldingsAre(g: Graph, p: Peer)
    ensures Holdings(g, p) == |PiecesOf(g, p)|
    decreases |set e | e in g && e.0 == p|
  {
    var edges := set e | e in g && e.0 == p;
    if edges == {} {
      assert forall e :: e in g && e.0 == p ==> e in edges;
      assert PiecesOf(g, p) == {};
    } else {
      var e :| e in edges;
      var g' := g - {e};
      assert (set f | f in g' && f.0 == p) == edges - {e};
      HoldingsAre(g', p);
      assert PiecesOf(g', p) == PiecesOf(g, p) - {e.1};
      assert e.1 in PiecesOf(g, p);
    }
  }

  /** At all times the schedule lists rare pieces first. */
  lemma RarestFirst(have: seq<bool>, maxA: nat, maxR: nat, base: nat, events: seq<Event>, sts: seq<State>, n: nat,
                    i: nat, j: nat)
    requires Run(have, maxA, maxR, base, events, sts) && n < |sts| && i < j < |sts[n].schedule|
    ensures Owners(sts[n].peerPieces, sts[n].schedule[i]) <= Owners(sts[n].peerPieces, sts[n].schedule[j])
  {
    RunValid(have, maxA, maxR, base, events, sts, n);
    var st := sts[n];
    OwnersAre(st.peerPieces, st.schedule[i]);
    OwnersAre(st.peerPieces, st.schedule[j]);
    assert RarityKey(st.peerPieces)(st.schedule[i]) <= RarityKey(st.peerPieces)(st.schedule[j]);
  }

  // ---- Filling up a peer ----

  lemma {:induction false} TakenFirst(st: State, peer: Peer, pieces: seq<Piece>, now: nat, n: nat, x: Piece, y: Piece)
      returns (i: nat, j: nat)
    requires x in Take(EligiblePieces(st, peer, pieces, now), n)
    requires y in pieces && MayAssign(st, peer, y, now) && y !in Take(EligiblePieces(st, peer, pieces, now), n)
    ensures i < j < |pieces| && pieces[i] == x && pieces[j] == y
    decreases |pieces|
  {
    var rest := pieces[1..];
    var more := EligiblePieces(st, peer, rest, now);
    if MayAssign(st, peer, pieces[0], now) {
      TakeCons(pieces[0], more, n);
      if x == pieces[0] {
        i := 0;
        j :| 0 <= j < |pieces| && pieces[j] == y;
        return;
      }
      i, j := TakenFirst(st, peer, rest, now, n - 1, x, y);
    } else {
      assert [] + more == more;
      i, j := TakenFirst(st, peer, rest, now, n, x, y);
    }
    i, j := i + 1, j + 1;
  }

  /** What a peer is given comes before what it could be given and is not; it is left
      with less than it could have only at its limit. */
  lemma EarliestFirst(st: State, peer: Peer, now: nat, x: Piece, y: Piece) returns (i: nat, j: nat)
    requires Distinct(st.schedule)
    requires (peer, x) in SchedulePeer(st, peer, now).assignments && (peer, x) !in st.assignments
    requires Assignable(st, peer, y, now) && (peer, y) !in SchedulePeer(st, peer, now).assignments
    ensures i < j < |st.schedule| && st.schedule[i] == x && st.schedule[j] == y
    ensures NumAssignments(SchedulePeer(st, peer, now), peer) == st.maxAssignments
  {
    ChosenPiecesProperties(st, peer, now);
    EligibleMember(st, peer, st.schedule, now, y);
    i, j := TakenFirst(st, peer, st.schedule, now, Minus(st.maxAssignments, NumAssignments(st, peer)), x, y);
  }

  // ---- Filling up a piece ----

  /** A piece goes to peers that own no more pieces than those it could go to and does
      not; somebody is left out only at the limit. */
  lemma FewestFirst(st: State, piece: Piece, now: nat, st': State, p: Peer, q: Peer)
    requires SchedulePieceStep(st, piece, now, st')
    requires (p, piece) in st'.assignments && (p, piece) !in st.assignments
    requires MayAssign(st, q, piece, now) && (q, piece) !in st'.assignments
    ensures Holdings(st.peerPieces, p) <= Holdings(st.peerPieces, q)
    ensures NumReplicates(st', piece) == st.maxReplicates
  {
    var order: seq<Peer> :| Distinct(order) && PeerOrder(order, EligiblePeers(st, piece, now), st.peerPieces)
                            && st' == AssignPiece(st, piece, order);
    AssignPieceCounts(st, piece, order, now);
    assert q in EligiblePeers(st, piece, now) && q in Elems(order);
    var i :| 0 <= i < |order| && order[i] == p;
    var j :| 0 <= j < |order| && order[j] == q;
    HoldingsAre(st.peerPieces, p);
    HoldingsAre(st.peerPieces, q);
    var key := OwnershipKey(st.peerPieces);
    assert i < j ==> key(order[i]) <= key(order[j]);
  }

  // ---- Filling up several peers ----

  // Filling up others leaves a peer as it is.
  lemma {:induction false} Unaffected(st: State, order: seq<Peer>, now: nat, p: Peer)
    requires p !in order
    ensures PiecesOf(SchedulePeersInOrder(st, order, now).assignments, p) == PiecesOf(st.assignments, p)
    decreases |order|
  {
    if order != [] {
      var m := SchedulePeer(st, order[0], now);
      Unaffected(m, order[1..], now, p);
      OthersPieces(st.assignments, order[0], ChosenPieces(st, order[0], now), p);
    }
  }

  lemma OthersPieces(g: Graph, q: Peer, chosen: seq<Piece>, p: Peer)
    requires p != q
    ensures PiecesOf(g + Edges(q, chosen), p) == PiecesOf(g, p)
  {
    forall x: Piece ensures x in PiecesOf(g + Edges(q, chosen), p) <==> x in PiecesOf(g, p) {
      assert (p, x) in g + Edges(q, chosen) <==> (p, x) in g;
    }
  }

  lemma {:induction false} InTwoParts(st: State, a: seq<Peer>, b: seq<Peer>, now: nat)
    ensures SchedulePeersInOrder(st, a + b, now)
         == SchedulePeersInOrder(SchedulePeersInOrder(st, a, now), b, now)
    decreases |a|
  {
    if a == [] {
      assert a + b == b;
    } else {
      assert (a + b)[0] == a[0] && (a + b)[1..] == a[1..] + b;
      InTwoParts(SchedulePeer(st, a[0], now), a[1..], b, now);
    }
  }

  lemma {:induction false} Cut(order: seq<Peer>, key: Peer -> int, bound: int) returns (k: nat)
    requires Sorted(order, key)
    ensures k <= |order|
    ensures forall i :: 0 <= i < k ==> key(order[i]) <= bound
    ensures forall i :: k <= i < |order| ==> bound < key(order[i])
  {
    if order == [] || bound < key(order[0]) {
      k := 0;
    } else {
      k := Cut(order[1..], key, bound);
      k := k + 1;
      assert forall i :: 0 < i < |order| ==> order[i] == order[1..][i - 1];
    }
  }

  /** Peers that own fewer pieces are filled up first: at some point one has got all it
      gets, and one that owns more has got nothing yet. */
  lemma PoorestFirst(st: State, peers: set<Peer>, now: nat, st': State, p: Peer, q: Peer) returns (m: State)
    requires Distinct(st.schedule) && SchedulePeersStep(st, peers, now, st')
    requires Holdings(st.peerPieces, p) < Holdings(st.peerPieces, q)
    ensures st.assignments <= m.assignments <= st'.assignments
    ensures PiecesOf(m.assignments, p) == PiecesOf(st'.assignments, p)
    ensures PiecesOf(m.assignments, q) == PiecesOf(st.assignments, q)
  {
    var order: seq<Peer> :| PeerOrder(order, peers, st.peerPieces) && st' == SchedulePeersInOrder(st, order, now);
    var key := OwnershipKey(st.peerPieces);
    HoldingsAre(st.peerPieces, p);
    HoldingsAre(st.peerPieces, q);
    var k := Cut(order, key, key(p));
    var early, late := order[..k], order[k..];
    assert order == early + late && q !in early && p !in late;
    m := SchedulePeersInOrder(st, early, now);
    InTwoParts(st, early, late, now);
    SchedulePeersClear(st, early, now, p, 0);
    SchedulePeersClear(m, late, now, p, 0);
    Unaffected(st, early, now, q);
    Unaffected(m, late, now, p);
  }
}
