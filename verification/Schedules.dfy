/**
  The state of the piece scheduler (rust/bittorrent/transceiver/src/schedule.rs)
  as a value: which pairs of peer and piece are assignable, and what filling up a
  peer or a piece leaves behind.

  A bipartite graph is its set of edges, a table its map from pairs.
 */
module Schedules {
  import opened Common
  import opened Sorting

  type Peer = nat
  type Piece = nat
  type Graph = set<(Peer, Piece)>

  /** Times and durations are whole numbers of one unit. */
  datatype Backoff = Backoff(deadline: nat, numErrors: nat)

  datatype State = State(
    numPieces: nat,
    peerPieces: Graph,
    schedule: seq<Piece>,
    assignments: Graph,
    maxAssignments: nat,
    maxReplicates: nat,
    updated: set<Peer>,
    backoffs: map<(Peer, Piece), Backoff>)

  function PiecesOf(g: Graph, peer: Peer): set<Piece> {
    set e | e in g && e.0 == peer :: e.1
  }

  function PeersOf(g: Graph, piece: Piece): set<Peer> {
    set e | e in g && e.1 == piece :: e.0
  }

  function Peers(g: Graph): set<Peer> {
    set e | e in g :: e.0
  }

  function NumAssignments(st: State, peer: Peer): nat {
    |PiecesOf(st.assignments, peer)|
  }

  function NumReplicates(st: State, piece: Piece): nat {
    |PeersOf(st.assignments, piece)|
  }

  predicate IsExpired(b: Backoff, now: nat) {
    b.deadline <= now
  }

  predicate MayAssign(st: State, peer: Peer, piece: Piece, now: nat) {
    && (peer, piece) in st.peerPieces
    && (peer, piece) !in st.assignments
    && NumAssignments(st, peer) < st.maxAssignments
    && NumReplicates(st, piece) < st.maxReplicates
    && ((peer, piece) in st.backoffs ==> IsExpired(st.backoffs[(peer, piece)], now))
  }

  /** The pair waits to be assigned. */
  predicate Assignable(st: State, peer: Peer, piece: Piece, now: nat) {
    piece in st.schedule && MayAssign(st, peer, piece, now)
  }

  ghost predicate Maximal(st: State, now: nat) {
    forall peer: Peer, piece: Piece :: !Assignable(st, peer, piece, now)
  }

  /** Rarest first: the number of peers that own the piece. */
  function RarityKey(peerPieces: Graph): Piece -> int {
    (piece: Piece) => |PeersOf(peerPieces, piece)|
  }

  /** Fewest ownerships first. */
  function OwnershipKey(peerPieces: Graph): Peer -> int {
    (peer: Peer) => |PiecesOf(peerPieces, peer)|
  }

  function SortSchedule(st: State): State {
    st.(schedule := SortBy(st.schedule, RarityKey(st.peerPieces)))
  }

  function Minus(a: nat, b: nat): nat {
    if a < b then 0 else a - b
  }

  /** The pieces of the list that may be assigned to the peer, in order. */
  function EligiblePieces(st: State, peer: Peer, pieces: seq<Piece>, now: nat): seq<Piece> {
    if pieces == [] then []
    else (if MayAssign(st, peer, pieces[0], now) then [pieces[0]] else []) + EligiblePieces(st, peer, pieces[1..], now)
  }

  function EligiblePeers(st: State, piece: Piece, now: nat): set<Peer> {
    set peer | peer in PeersOf(st.peerPieces, piece) && MayAssign(st, peer, piece, now)
  }

  function Edges(peer: Peer, pieces: seq<Piece>): Graph {
    set piece | piece in pieces :: (peer, piece)
  }

  function EdgesTo(peers: seq<Peer>, piece: Piece): Graph {
    set peer | peer in peers :: (peer, piece)
  }

  /** The pieces a peer is given. */
  function ChosenPieces(st: State, peer: Peer, now: nat): seq<Piece> {
    Take(EligiblePieces(st, peer, st.schedule, now), Minus(st.maxAssignments, NumAssignments(st, peer)))
  }

  function SchedulePeer(st: State, peer: Peer, now: nat): State {
    var chosen := ChosenPieces(st, peer, now);
    st.(assignments := st.assignments + Edges(peer, chosen),
        updated := if chosen == [] then st.updated else st.updated + {peer})
  }

  function SchedulePeersInOrder(st: State, order: seq<Peer>, now: nat): State
    decreases |order|
  {
    if order == [] then st else SchedulePeersInOrder(SchedulePeer(st, order[0], now), order[1..], now)
  }

  /** `order` lists the peers by ascending ownership; a peer may occur repeatedly,
      and peers of equal ownership come in any order. */
  ghost predicate PeerOrder(order: seq<Peer>, peers: set<Peer>, peerPieces: Graph) {
    Elems(order) == peers && Sorted(order, OwnershipKey(peerPieces))
  }

  ghost predicate SchedulePeersStep(st: State, peers: set<Peer>, now: nat, st': State) {
    exists order: seq<Peer> :: PeerOrder(order, peers, st.peerPieces) && st' == SchedulePeersInOrder(st, order, now)
  }

  /** The piece given to the first peers in the order, up to the replication limit. */
  function AssignPiece(st: State, piece: Piece, order: seq<Peer>): State {
    var chosen := Take(order, Minus(st.maxReplicates, NumReplicates(st, piece)));
    st.(assignments := st.assignments + EdgesTo(chosen, piece), updated := st.updated + Elems(chosen))
  }

  ghost predicate SchedulePieceStep(st: State, piece: Piece, now: nat, st': State) {
    exists order: seq<Peer> ::
      && Distinct(order) && PeerOrder(order, EligiblePeers(st, piece, now), st.peerPieces)
      && st' == AssignPiece(st, piece, order)
  }

  /** The states between the pieces. */
  ghost predicate PiecesTrace(st: State, pieces: seq<Piece>, now: nat, sts: seq<State>, st': State) {
    && |sts| == |pieces| + 1 && sts[0] == st && sts[|pieces|] == st'
    && forall k :: 0 <= k < |pieces| ==> SchedulePieceStep(sts[k], pieces[k], now, sts[k + 1])
  }

  ghost predicate SchedulePiecesStep(st: State, pieces: seq<Piece>, now: nat, st': State) {
    exists sts :: PiecesTrace(st, pieces, now, sts, st')
  }

  lemma NoPieces(st: State, now: nat)
    ensures SchedulePiecesStep(st, [], now, st)
  {
    assert PiecesTrace(st, [], now, [st], st);
  }

  lemma LastPiece(st: State, pieces: seq<Piece>, now: nat, st': State) returns (m: State)
    requires SchedulePiecesStep(st, pieces, now, st') && pieces != []
    ensures SchedulePiecesStep(st, pieces[..|pieces| - 1], now, m)
    ensures SchedulePieceStep(m, pieces[|pieces| - 1], now, st')
  {
    var sts :| PiecesTrace(st, pieces, now, sts, st');
    var n := |pieces| - 1;
    m := sts[n];
    assert PiecesTrace(st, pieces[..n], now, sts[..n + 1], m);
  }

  lemma NextPiece(st: State, pieces: seq<Piece>, piece: Piece, now: nat, m: State, st': State)
    requires SchedulePiecesStep(st, pieces, now, m) && SchedulePieceStep(m, piece, now, st')
    ensures SchedulePiecesStep(st, pieces + [piece], now, st')
  {
    var sts :| PiecesTrace(st, pieces, now, sts, m);
    var all, more := pieces + [piece], sts + [st'];
    forall k | 0 <= k < |all| ensures SchedulePieceStep(more[k], all[k], now, more[k + 1]) {
      assert k < |pieces| ==> more[k] == sts[k] && more[k + 1] == sts[k + 1] && all[k] == pieces[k];
    }
    assert PiecesTrace(st, all, now, more, st');
  }

  // ---- Counting ----

  lemma CountsGrow(a: Graph, b: Graph, peer: Peer, piece: Piece)
    requires a <= b
    ensures |PiecesOf(a, peer)| <= |PiecesOf(b, peer)|
    ensures |PeersOf(a, piece)| <= |PeersOf(b, piece)|
  {
    SubsetCard(PiecesOf(a, peer), PiecesOf(b, peer));
    SubsetCard(PeersOf(a, piece), PeersOf(b, piece));
  }

  lemma {:induction false} ElemsCount(s: seq<nat>)
    requires Distinct(s)
    ensures |Elems(s)| == |s|
  {
    if s != [] {
      ElemsCount(s[1..]);
      assert s == [s[0]] + s[1..];
      assert Elems(s) == {s[0]} + Elems(s[1..]);
    }
  }

  /** Assigning more never makes a pair assignable. */
  lemma MoreAssignments(st: State, st': State, peer: Peer, piece: Piece, now: nat)
    requires st.assignments <= st'.assignments
    requires st' == st.(assignments := st'.assignments, updated := st'.updated)
    ensures Assignable(st', peer, piece, now) ==> Assignable(st, peer, piece, now)
  {
    CountsGrow(st.assignments, st'.assignments, peer, piece);
  }

  // ---- Filling up a peer ----

  lemma {:induction false} EligibleMember(st: State, peer: Peer, pieces: seq<Piece>, now: nat, x: Piece)
    ensures x in EligiblePieces(st, peer, pieces, now) <==> x in pieces && MayAssign(st, peer, x, now)
  {
    if pieces != [] {
      EligibleMember(st, peer, pieces[1..], now, x);
    }
  }

  lemma {:induction false} EligibleDistinct(st: State, peer: Peer, pieces: seq<Piece>, now: nat)
    requires Distinct(pieces)
    ensures Distinct(EligiblePieces(st, peer, pieces, now))
  {
    if pieces != [] {
      EligibleDistinct(st, peer, pieces[1..], now);
      EligibleMember(st, peer, pieces[1..], now, pieces[0]);
    }
  }

  /** What the chosen pieces are, and how many the peer has afterwards. */
  lemma ChosenPiecesProperties(st: State, peer: Peer, now: nat)
    requires Distinct(st.schedule)
    ensures var chosen := ChosenPieces(st, peer, now);
            && Distinct(chosen)
            && (forall k :: 0 <= k < |chosen| ==> chosen[k] in st.schedule && MayAssign(st, peer, chosen[k], now))
            && NumAssignments(SchedulePeer(st, peer, now), peer) == NumAssignments(st, peer) + |chosen|
            && |chosen| <= Minus(st.maxAssignments, NumAssignments(st, peer))
  {
    var chosen := ChosenPieces(st, peer, now);
    EligibleDistinct(st, peer, st.schedule, now);
    forall k | 0 <= k < |chosen| ensures chosen[k] in st.schedule && MayAssign(st, peer, chosen[k], now) {
      EligibleMember(st, peer, st.schedule, now, chosen[k]);
    }
    ElemsCount(chosen);
    var before := PiecesOf(st.assignments, peer);
    assert before !! Elems(chosen) by {
      assert forall x :: x in Elems(chosen) ==> (peer, x) !in st.assignments;
    }
    PiecesAfter(st.assignments, peer, chosen);
    assert |before + Elems(chosen)| == |before| + |Elems(chosen)|;
  }

  lemma PiecesAfter(g: Graph, peer: Peer, chosen: seq<Piece>)
    ensures PiecesOf(g + Edges(peer, chosen), peer) == PiecesOf(g, peer) + Elems(chosen)
  {
    var g' := g + Edges(peer, chosen);
    forall x | x in Elems(chosen) ensures x in PiecesOf(g', peer) {
      assert (peer, x) in g';
    }
    forall x | x in PiecesOf(g, peer) ensures x in PiecesOf(g', peer) {
      assert (peer, x) in g';
    }
  }

  /** After filling up a peer, nothing is left to assign to it. */
  lemma SchedulePeerClears(st: State, peer: Peer, now: nat, piece: Piece)
    requires Distinct(st.schedule)
    ensures !Assignable(SchedulePeer(st, peer, now), peer, piece, now)
  {
    var eligible, chosen := EligiblePieces(st, peer, st.schedule, now), ChosenPieces(st, peer, now);
    var st' := SchedulePeer(st, peer, now);
    ChosenPiecesProperties(st, peer, now);
    if Assignable(st', peer, piece, now) {
      MoreAssignments(st, st', peer, piece, now);
      EligibleMember(st, peer, st.schedule, now, piece);
    }
  }

  /** Filling up peers one after the other leaves nothing for any of them, and makes
      nothing assignable. */
  lemma {:induction false} SchedulePeersClear(st: State, order: seq<Peer>, now: nat, peer: Peer, piece: Piece)
    requires Distinct(st.schedule)
    ensures var st' := SchedulePeersInOrder(st, order, now);
            && st.assignments <= st'.assignments
            && st' == st.(assignments := st'.assignments, updated := st'.updated)
            && (peer in order ==> !Assignable(st', peer, piece, now))
    decreases |order|
  {
    if order != [] {
      var m := SchedulePeer(st, order[0], now);
      SchedulePeersClear(m, order[1..], now, peer, piece);
      if peer == order[0] {
        SchedulePeerClears(st, peer, now, piece);
        MoreAssignments(m, SchedulePeersInOrder(st, order, now), peer, piece, now);
      }
    }
  }

  // ---- Filling up a piece ----

  lemma PeersAfter(g: Graph, piece: Piece, chosen: seq<Peer>)
    ensures PeersOf(g + EdgesTo(chosen, piece), piece) == PeersOf(g, piece) + Elems(chosen)
  {
    var g' := g + EdgesTo(chosen, piece);
    forall x | x in Elems(chosen) ensures x in PeersOf(g', piece) {
      assert (x, piece) in g';
    }
    forall x | x in PeersOf(g, piece) ensures x in PeersOf(g', piece) {
      assert (x, piece) in g';
    }
  }

  lemma AssignPieceCounts(st: State, piece: Piece, order: seq<Peer>, now: nat)
    requires Distinct(order) && Elems(order) == EligiblePeers(st, piece, now)
    ensures var n := Minus(st.maxReplicates, NumReplicates(st, piece));
            NumReplicates(AssignPiece(st, piece, order), piece) == NumReplicates(st, piece) + |Take(order, n)|
  {
    var chosen := Take(order, Minus(st.maxReplicates, NumReplicates(st, piece)));
    assert Distinct(chosen) && Elems(chosen) <= Elems(order);
    ElemsCount(chosen);
    var before := PeersOf(st.assignments, piece);
    assert before !! Elems(chosen) by {
      assert forall x :: x in Elems(chosen) ==> (x, piece) !in st.assignments;
    }
    PeersAfter(st.assignments, piece, chosen);
    assert |before + Elems(chosen)| == |before| + |Elems(chosen)|;
  }

  /** After filling up a piece, it is assignable to nobody, and nothing became assignable. */
  lemma SchedulePieceClears(st: State, piece: Piece, now: nat, st': State, peer: Peer)
    requires SchedulePieceStep(st, piece, now, st')
    ensures st.assignments <= st'.assignments
    ensures st' == st.(assignments := st'.assignments, updated := st'.updated)
    ensures !Assignable(st', peer, piece, now)
  {
    var order: seq<Peer> :| Distinct(order) && PeerOrder(order, EligiblePeers(st, piece, now), st.peerPieces)
                            && st' == AssignPiece(st, piece, order);
    var chosen := Take(order, Minus(st.maxReplicates, NumReplicates(st, piece)));
    AssignPieceCounts(st, piece, order, now);
    MoreAssignments(st, st', peer, piece, now);
    assert MayAssign(st, peer, piece, now) ==> peer in EligiblePeers(st, piece, now) && peer in Elems(order);
  }

  lemma {:induction false} SchedulePiecesClear(st: State, pieces: seq<Piece>, now: nat, st': State,
                                               peer: Peer, piece: Piece)
    requires SchedulePiecesStep(st, pieces, now, st')
    ensures st.assignments <= st'.assignments
    ensures st' == st.(assignments := st'.assignments, updated := st'.updated)
    ensures piece in pieces ==> !Assignable(st', peer, piece, now)
    decreases |pieces|
  {
    if pieces != [] {
      var n := |pieces| - 1;
      var m := LastPiece(st, pieces, now, st');
      SchedulePiecesClear(st, pieces[..n], now, m, peer, piece);
      SchedulePieceClears(m, pieces[n], now, st', peer);
      MoreAssignments(m, st', peer, piece, now);
    }
  }

  lemma {:induction false} SchedulePeersAppend(st: State, order: seq<Peer>, x: Peer, now: nat)
    ensures SchedulePeersInOrder(st, order + [x], now) == SchedulePeer(SchedulePeersInOrder(st, order, now), x, now)
    decreases |order|
  {
    if order == [] {
      assert order + [x] == [x];
    } else {
      SchedulePeersAppend(SchedulePeer(st, order[0], now), order[1..], x, now);
      assert (order + [x])[1..] == order[1..] + [x] && (order + [x])[0] == order[0];
    }
  }

  lemma SortKeepsElems(s: seq<nat>, key: nat -> int)
    requires Distinct(s)
    ensures Distinct(SortBy(s, key)) && Elems(SortBy(s, key)) == Elems(s) && Sorted(SortBy(s, key), key)
  {
    var t := SortBy(s, key);
    SortBySorts(s, key);
    forall x ensures x in Elems(t) <==> x in Elems(s) {
      assert x in multiset(t) <==> x in multiset(s);
    }
    var id := (x: nat) => x as int;
    DistinctOfPermutation(s, t, id);
    assert forall i, j :: 0 <= i < j < |t| ==> id(t[i]) != id(t[j]);
  }
}
