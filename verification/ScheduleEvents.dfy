/**
  The events of the piece scheduler as steps between states, and what every run
  of them keeps (rust/bittorrent/transceiver/src/schedule.rs).

  Each step takes the clock reading that the source takes in the callback.
 */
module ScheduleEvents {
  import opened Common
  import opened Sorting
  import opened Schedules

  /** What a peer says it has. */
  datatype Possession = Bitfield(bits: seq<bool>) | Have(piece: Piece) | HaveAll | HaveNone

  datatype Op =
    | Schedule
    | PeerStart(peer: Peer)
    | PeerStop(peer: Peer)
    | Possess(peer: Peer, possession: Possession)
    | ResponseError(peer: Peer, piece: Piece)
    | Verified(piece: Piece)
    | Assign(peer: Peer, piece: Piece)
    | RemoveExpired
    | TakeUpdated
    | SetMaxAssignments(max: nat)
    | SetMaxReplicates(max: nat)

  // ---- Backoffs ----

  const HOUR: nat := 3600_000_000_000

  /** The delay after `numErrors` earlier errors: doubled each time, a saturating
      32-bit factor, and an hour at most. */
  function Delay(base: nat, numErrors: nat): nat {
    Min(base * Min(Pow2(numErrors), 0xFFFF_FFFF), HOUR)
  }

  /** The delay never shrinks from one error to the next, and never exceeds an hour. */
  lemma DelayGrows(base: nat, numErrors: nat)
    ensures Delay(base, numErrors) <= Delay(base, numErrors + 1) <= HOUR
  {
    ScaledGrows(base, Pow2(numErrors), Pow2(numErrors + 1), 0xFFFF_FFFF, HOUR);
  }

  /** The first delay is the base, each further one twice the one before, up to an hour;
      from the 33rd error on the factor stays. */
  lemma DelayDoubles(base: nat, numErrors: nat)
    ensures Delay(base, 0) == Min(base, HOUR)
    ensures numErrors < 31 ==> Delay(base, numErrors + 1) == Min(2 * Delay(base, numErrors), HOUR)
    ensures numErrors >= 32 ==> Delay(base, numErrors) == Min(base * 0xFFFF_FFFF, HOUR)
  {
    Pow2Grows(numErrors, if numErrors < 31 then 30 else numErrors);
    Pow2Grows(32, if numErrors < 32 then 32 else numErrors);
    Pow2OfThirty();
    var p := Pow2(numErrors);
    if numErrors < 31 {
      assert base * (2 * p) == 2 * (base * p);
    }
  }

  lemma Pow2OfThirty()
    ensures Pow2(30) == 0x4000_0000 && Pow2(32) == 0x1_0000_0000
  {
    assert Pow2(5) == 32;
    assert Pow2(10) == 1024;
    assert Pow2(15) == 32768;
    assert Pow2(20) == 0x10_0000;
    assert Pow2(25) == 0x200_0000;
  }

  lemma {:induction false} Pow2Grows(a: nat, b: nat)
    ensures a <= b ==> Pow2(a) <= Pow2(b)
    decreases b
  {
    if a < b {
      Pow2Grows(a, b - 1);
    }
  }

  lemma ScaledGrows(base: nat, a: nat, b: nat, factorBound: nat, bound: nat)
    requires a <= b
    ensures Min(base * Min(a, factorBound), bound) <= Min(base * Min(b, factorBound), bound) <= bound
  {
    MulGrows(base, Min(a, factorBound), Min(b, factorBound));
  }

  lemma {:induction false} MulGrows(n: nat, a: nat, b: nat)
    requires a <= b
    ensures n * a <= n * b
  {
    if n > 0 {
      MulGrows(n - 1, a, b);
      assert n * a == (n - 1) * a + a && n * b == (n - 1) * b + b;
    }
  }

  function Incremented(b: Backoff, now: nat, base: nat): Backoff {
    Backoff(now + Delay(base, b.numErrors), b.numErrors + 1)
  }

  // ---- Raw edits, before anything is rescheduled ----

  function WithoutPeer(g: Graph, peer: Peer): Graph {
    set e | e in g && e.0 != peer
  }

  function WithoutPiece(g: Graph, piece: Piece): Graph {
    set e | e in g && e.1 != piece
  }

  function Only(pieces: seq<Piece>, keep: set<Piece>): seq<Piece> {
    if pieces == [] then []
    else (if pieces[0] in keep then [pieces[0]] else []) + Only(pieces[1..], keep)
  }

  function Unscheduled(pieces: seq<Piece>, piece: Piece): seq<Piece> {
    if pieces == [] then []
    else if pieces[0] == piece then pieces[1..]
    else [pieces[0]] + Unscheduled(pieces[1..], piece)
  }

  predicate ValidPossession(p: Possession, numPieces: nat) {
    match p
    case Bitfield(bits) => |bits| >= numPieces && forall k :: numPieces <= k < |bits| ==> !bits[k]
    case Have(piece) => piece < numPieces
    case _ => true
  }

  function AllPieces(peer: Peer, numPieces: nat): Graph {
    set piece | 0 <= piece < numPieces :: (peer, piece)
  }

  function Owned(g: Graph, peer: Peer, p: Possession, numPieces: nat): Graph
    requires ValidPossession(p, numPieces)
  {
    match p
    case Bitfield(bits) => WithoutPeer(g, peer) + (set e | e in AllPieces(peer, numPieces) && bits[e.1])
    case Have(piece) => g + {(peer, piece)}
    case HaveAll => g + AllPieces(peer, numPieces)
    case HaveNone => WithoutPeer(g, peer)
  }

  function Stopped(st: State, peer: Peer): State {
    SortSchedule(st.(peerPieces := WithoutPeer(st.peerPieces, peer))).(
      assignments := WithoutPeer(st.assignments, peer),
      backoffs := map e | e in st.backoffs && e.0 != peer :: st.backoffs[e])
  }

  function Possessed(st: State, peer: Peer, p: Possession): State
    requires ValidPossession(p, st.numPieces)
  {
    SortSchedule(st.(peerPieces := Owned(st.peerPieces, peer, p, st.numPieces)))
  }

  function Errored(st: State, peer: Peer, piece: Piece, now: nat, base: nat): State {
    var b := if (peer, piece) in st.backoffs then st.backoffs[(peer, piece)] else Backoff(now, 0);
    st.(assignments := st.assignments - {(peer, piece)},
        backoffs := st.backoffs[(peer, piece) := Incremented(b, now, base)])
  }

  function Finished(st: State, piece: Piece): State {
    st.(schedule := Unscheduled(st.schedule, piece),
        assignments := WithoutPiece(st.assignments, piece),
        backoffs := map e | e in st.backoffs && e.1 != piece :: st.backoffs[e])
  }

  function Expired(st: State, now: nat): set<(Peer, Piece)> {
    set e | e in st.backoffs && IsExpired(st.backoffs[e], now)
  }

  function Purged(st: State, now: nat): State {
    st.(backoffs := st.backoffs - Expired(st, now))
  }

  // ---- Steps ----

  ghost predicate Step(st: State, op: Op, now: nat, base: nat, st': State) {
    match op
    case Schedule => SchedulePeersStep(st, Peers(st.peerPieces), now, st')
    case PeerStart(_) => st' == st
    case PeerStop(peer) =>
      var m := Stopped(st, peer);
      SchedulePiecesStep(m, Only(m.schedule, PiecesOf(st.assignments, peer)), now, st')
    case Possess(peer, p) =>
      if ValidPossession(p, st.numPieces) then st' == SchedulePeer(Possessed(st, peer, p), peer, now) else st' == st
    case ResponseError(peer, piece) =>
      if (peer, piece) in st.assignments then
        SchedulePieceStep(SchedulePeer(Errored(st, peer, piece, now, base), peer, now), piece, now, st')
      else st' == st
    case Verified(piece) =>
      if piece in st.schedule then SchedulePeersStep(Finished(st, piece), PeersOf(st.assignments, piece), now, st')
      else st' == st
    case Assign(peer, piece) =>
      if piece in st.schedule && (peer, piece) !in st.assignments then
        st' == st.(assignments := st.assignments + {(peer, piece)}, updated := st.updated + {peer})
      else st' == st
    case RemoveExpired => SchedulePeersStep(Purged(st, now), Peers(Expired(st, now)), now, st')
    case TakeUpdated => st' == st.(updated := {})
    case SetMaxAssignments(max) => max > 0 && st' == st.(maxAssignments := max)
    case SetMaxReplicates(max) => max > 0 && st' == st.(maxReplicates := max)
  }

  // ---- The structural invariant ----

  ghost predicate Valid(st: State) {
    && Distinct(st.schedule)
    && Sorted(st.schedule, RarityKey(st.peerPieces))
    && forall e :: e in st.assignments ==> e.1 in st.schedule
  }

  lemma {:induction false} OnlyMember(pieces: seq<Piece>, keep: set<Piece>, x: Piece)
    ensures x in Only(pieces, keep) <==> x in pieces && x in keep
  {
    if pieces != [] {
      OnlyMember(pieces[1..], keep, x);
    }
  }

  lemma {:induction false} UnscheduledMember(pieces: seq<Piece>, piece: Piece, x: Piece)
    requires Distinct(pieces)
    ensures x in Unscheduled(pieces, piece) <==> x in pieces && x != piece
  {
    if pieces != [] {
      UnscheduledMember(pieces[1..], piece, x);
    }
  }

  lemma {:induction false} UnscheduledKeeps(pieces: seq<Piece>, piece: Piece, key: Piece -> int)
    requires Distinct(pieces) && Sorted(pieces, key)
    ensures Distinct(Unscheduled(pieces, piece)) && Sorted(Unscheduled(pieces, piece), key)
  {
    if pieces != [] && pieces[0] != piece {
      UnscheduledKeeps(pieces[1..], piece, key);
      var rest := Unscheduled(pieces[1..], piece);
      forall k | 0 <= k < |rest| ensures rest[k] != pieces[0] && key(pieces[0]) <= key(rest[k]) {
        UnscheduledMember(pieces[1..], piece, rest[k]);
      }
    }
  }

  lemma SortKeeps(st: State)
    requires Distinct(st.schedule)
    ensures var s := SortSchedule(st).schedule;
            Distinct(s) && Sorted(s, RarityKey(st.peerPieces)) && Elems(s) == Elems(st.schedule)
  {
    var s, key := SortSchedule(st).schedule, RarityKey(st.peerPieces);
    SortBySorts(st.schedule, key);
    forall x ensures x in Elems(s) <==> x in Elems(st.schedule) {
      assert x in multiset(s) <==> x in multiset(st.schedule);
    }
    var id := (x: nat) => x as int;
    DistinctOfPermutation(st.schedule, s, id);
    assert forall i, j :: 0 <= i < j < |s| ==> id(s[i]) != id(s[j]);
  }

  /** Sorting is stable: equally rare pieces keep their order. */
  lemma SortScheduleIsStable(st: State, rarity: int)
    ensures WithKey(SortSchedule(st).schedule, RarityKey(st.peerPieces), rarity)
         == WithKey(st.schedule, RarityKey(st.peerPieces), rarity)
  {
    SortByIsStable(st.schedule, RarityKey(st.peerPieces), rarity);
  }

  lemma ScheduleMember(st: State, x: Piece)
    requires Distinct(st.schedule)
    ensures x in SortSchedule(st).schedule <==> x in st.schedule
  {
    SortKeeps(st);
    assert x in Elems(SortSchedule(st).schedule) <==> x in Elems(st.schedule);
  }

  // ---- No event makes a pair assignable and leaves it so ----

  /** Every pair assignable afterwards was assignable before, with the same claim to a backoff. */
  ghost predicate NoNew(st: State, st': State, now: nat) {
    forall peer: Peer, piece: Piece :: Assignable(st', peer, piece, now) ==>
      Assignable(st, peer, piece, now) && ((peer, piece) in st.backoffs <==> (peer, piece) in st'.backoffs)
  }

  // Taking one peer's edges away leaves the other peers' counts of pieces alone.
  lemma OtherPeerCounts(g: Graph, peer: Peer, other: Peer)
    requires other != peer
    ensures PiecesOf(WithoutPeer(g, peer), other) == PiecesOf(g, other)
  {
    forall x | x in PiecesOf(g, other) ensures x in PiecesOf(WithoutPeer(g, peer), other) {
      assert (other, x) in WithoutPeer(g, peer);
    }
  }

  lemma OtherPieceCounts(g: Graph, piece: Piece, other: Piece)
    requires other != piece
    ensures PeersOf(WithoutPiece(g, piece), other) == PeersOf(g, other)
  {
    forall x | x in PeersOf(g, other) ensures x in PeersOf(WithoutPiece(g, piece), other) {
      assert (x, other) in WithoutPiece(g, piece);
    }
  }

  // A piece the stopped peer did not work on keeps its replicates.
  lemma UntouchedPiece(g: Graph, peer: Peer, piece: Piece)
    requires piece !in PiecesOf(g, peer)
    ensures PeersOf(WithoutPeer(g, peer), piece) == PeersOf(g, piece)
  {
    forall x | x in PeersOf(g, piece) ensures x in PeersOf(WithoutPeer(g, peer), piece) {
      assert (x, piece) in g && x != peer;
      assert (x, piece) in WithoutPeer(g, peer);
    }
  }

  // A peer that did not work on the verified piece keeps its count.
  lemma UntouchedPeer(g: Graph, peer: Peer, piece: Piece)
    requires peer !in PeersOf(g, piece)
    ensures PiecesOf(WithoutPiece(g, piece), peer) == PiecesOf(g, peer)
  {
    forall x | x in PiecesOf(g, peer) ensures x in PiecesOf(WithoutPiece(g, piece), peer) {
      assert (peer, x) in g && x != piece;
      assert (peer, x) in WithoutPiece(g, piece);
    }
  }

  lemma StoppedPair(st: State, peer: Peer, now: nat, q: Peer, x: Piece)
    requires Distinct(st.schedule) && Assignable(Stopped(st, peer), q, x, now)
    requires x !in PiecesOf(st.assignments, peer)
    ensures Assignable(st, q, x, now) && q != peer
  {
    ScheduleMember(st.(peerPieces := Stopped(st, peer).peerPieces), x);
    UntouchedPiece(st.assignments, peer, x);
    OtherPeerCounts(st.assignments, peer, q);
  }

  /** A peer stops: only the pieces it worked on need looking at. */
  lemma StopNoNew(st: State, peer: Peer, now: nat, st': State)
    requires Valid(st)
    requires var m := Stopped(st, peer);
             SchedulePiecesStep(m, Only(m.schedule, PiecesOf(st.assignments, peer)), now, st')
    ensures NoNew(st, st', now)
  {
    var m, freed := Stopped(st, peer), PiecesOf(st.assignments, peer);
    forall q: Peer, x: Piece | Assignable(st', q, x, now)
      ensures Assignable(st, q, x, now) && ((q, x) in st.backoffs <==> (q, x) in st'.backoffs)
    {
      SchedulePiecesClear(m, Only(m.schedule, freed), now, st', q, x);
      MoreAssignments(m, st', q, x, now);
      OnlyMember(m.schedule, freed, x);
      StoppedPair(st, peer, now, q, x);
    }
  }

  lemma PossessNoNew(st: State, peer: Peer, p: Possession, now: nat)
    requires Valid(st) && ValidPossession(p, st.numPieces)
    ensures NoNew(st, SchedulePeer(Possessed(st, peer, p), peer, now), now)
  {
    var m := Possessed(st, peer, p);
    var st' := SchedulePeer(m, peer, now);
    SortKeeps(st.(peerPieces := m.peerPieces));
    forall q: Peer, x: Piece | Assignable(st', q, x, now)
      ensures Assignable(st, q, x, now) && ((q, x) in st.backoffs <==> (q, x) in st'.backoffs)
    {
      SchedulePeerClears(m, peer, now, x);
      MoreAssignments(m, st', q, x, now);
      ScheduleMember(st.(peerPieces := m.peerPieces), x);
    }
  }

  // Losing one edge changes the counts of its two ends only.
  lemma OneEdgeLess(g: Graph, peer: Peer, piece: Piece, q: Peer, x: Piece)
    ensures q != peer ==> PiecesOf(g - {(peer, piece)}, q) == PiecesOf(g, q)
    ensures x != piece ==> PeersOf(g - {(peer, piece)}, x) == PeersOf(g, x)
  {
    var g' := g - {(peer, piece)};
    forall y | q != peer && y in PiecesOf(g, q) ensures y in PiecesOf(g', q) {
      assert (q, y) in g';
    }
    forall y | x != piece && y in PeersOf(g, x) ensures y in PeersOf(g', x) {
      assert (y, x) in g';
    }
  }

  lemma ErroredPair(st: State, peer: Peer, piece: Piece, now: nat, base: nat, q: Peer, x: Piece)
    requires q != peer && x != piece && Assignable(Errored(st, peer, piece, now, base), q, x, now)
    ensures Assignable(st, q, x, now)
  {
    OneEdgeLess(st.assignments, peer, piece, q, x);
  }

  /** A request fails: only that peer and that piece need looking at. */
  lemma ErrorNoNew(st: State, peer: Peer, piece: Piece, now: nat, base: nat, n: State, st': State)
    requires Valid(st) && (peer, piece) in st.assignments
    requires n == SchedulePeer(Errored(st, peer, piece, now, base), peer, now) && SchedulePieceStep(n, piece, now, st')
    ensures NoNew(st, st', now)
  {
    var m := Errored(st, peer, piece, now, base);
    forall q: Peer, x: Piece | Assignable(st', q, x, now)
      ensures Assignable(st, q, x, now) && ((q, x) in st.backoffs <==> (q, x) in st'.backoffs)
    {
      SchedulePieceClears(n, piece, now, st', q);
      MoreAssignments(n, st', q, x, now);
      SchedulePeerClears(m, peer, now, x);
      MoreAssignments(m, n, q, x, now);
      ErroredPair(st, peer, piece, now, base, q, x);
    }
  }

  lemma FinishedPair(st: State, piece: Piece, now: nat, q: Peer, x: Piece)
    requires Distinct(st.schedule) && Assignable(Finished(st, piece), q, x, now)
    requires q !in PeersOf(st.assignments, piece)
    ensures Assignable(st, q, x, now) && x != piece
  {
    UnscheduledMember(st.schedule, piece, x);
    UntouchedPeer(st.assignments, q, piece);
    OtherPieceCounts(st.assignments, piece, x);
  }

  /** A piece is verified: only the peers that worked on it need looking at. */
  lemma VerifiedNoNew(st: State, piece: Piece, now: nat, st': State)
    requires Valid(st) && piece in st.schedule
    requires SchedulePeersStep(Finished(st, piece), PeersOf(st.assignments, piece), now, st')
    ensures NoNew(st, st', now)
  {
    var m, freed := Finished(st, piece), PeersOf(st.assignments, piece);
    UnscheduledKeeps(st.schedule, piece, RarityKey(st.peerPieces));
    var order: seq<Peer> :| PeerOrder(order, freed, m.peerPieces) && st' == SchedulePeersInOrder(m, order, now);
    forall q: Peer, x: Piece | Assignable(st', q, x, now)
      ensures Assignable(st, q, x, now) && ((q, x) in st.backoffs <==> (q, x) in st'.backoffs)
    {
      SchedulePeersClear(m, order, now, q, x);
      MoreAssignments(m, st', q, x, now);
      assert q in freed <==> q in Elems(order);
      FinishedPair(st, piece, now, q, x);
    }
  }

  /** After expired backoffs are removed, a pair still assignable never had one. */
  lemma PurgeNoNew(st: State, now: nat, st': State, q: Peer, x: Piece)
    requires Valid(st)
    requires SchedulePeersStep(Purged(st, now), Peers(Expired(st, now)), now, st')
    requires Assignable(st', q, x, now)
    ensures Assignable(st, q, x, now) && (q, x) !in st.backoffs && (q, x) !in st'.backoffs
  {
    var m, peers := Purged(st, now), Peers(Expired(st, now));
    var order: seq<Peer> :| PeerOrder(order, peers, m.peerPieces) && st' == SchedulePeersInOrder(m, order, now);
    SchedulePeersClear(m, order, now, q, x);
    MoreAssignments(m, st', q, x, now);
    assert q in peers <==> q in Elems(order);
    assert (q, x) in Expired(st, now) ==> q in peers;
  }

  /** `schedule` leaves no assignable pair. */
  lemma ScheduleMaximal(st: State, now: nat, st': State)
    requires Valid(st) && SchedulePeersStep(st, Peers(st.peerPieces), now, st')
    ensures Maximal(st', now)
  {
    var order: seq<Peer> :|
      PeerOrder(order, Peers(st.peerPieces), st.peerPieces) && st' == SchedulePeersInOrder(st, order, now);
    forall q: Peer, x: Piece ensures !Assignable(st', q, x, now) {
      SchedulePeersClear(st, order, now, q, x);
      assert (q, x) in st.peerPieces ==> q in Peers(st.peerPieces) && q in Elems(order);
    }
  }

  /** `schedule` on a maximal assignment changes nothing. */
  lemma ScheduleIdempotent(st: State, now: nat, st': State)
    requires Maximal(st, now) && SchedulePeersStep(st, Peers(st.peerPieces), now, st')
    ensures st' == st
  {
    var order: seq<Peer> :|
      PeerOrder(order, Peers(st.peerPieces), st.peerPieces) && st' == SchedulePeersInOrder(st, order, now);
    NothingToSchedule(st, order, now);
  }

  lemma {:induction false} NothingToSchedule(st: State, order: seq<Peer>, now: nat)
    requires Maximal(st, now)
    ensures SchedulePeersInOrder(st, order, now) == st
    decreases |order|
  {
    if order != [] {
      NothingEligible(st, order[0], st.schedule, now);
      assert SchedulePeer(st, order[0], now) == st;
      NothingToSchedule(st, order[1..], now);
    }
  }

  lemma {:induction false} NothingEligible(st: State, peer: Peer, pieces: seq<Piece>, now: nat)
    requires Maximal(st, now) && forall k :: 0 <= k < |pieces| ==> pieces[k] in st.schedule
    ensures EligiblePieces(st, peer, pieces, now) == []
  {
    if pieces != [] {
      NothingEligible(st, peer, pieces[1..], now);
      assert !Assignable(st, peer, pieces[0], now);
    }
  }

  /** Going over all scheduled pieces instead of all peers is maximal as well. */
  lemma ScheduleAllPiecesMaximal(st: State, now: nat, st': State)
    requires SchedulePiecesStep(st, st.schedule, now, st')
    ensures Maximal(st', now)
  {
    forall q: Peer, x: Piece ensures !Assignable(st', q, x, now) {
      SchedulePiecesClear(st, st.schedule, now, st', q, x);
    }
  }

  // ---- Every event ----

  /** The pair waits for nothing but the limit that the event raises. */
  predicate FreesPair(st: State, op: Op, peer: Peer, piece: Piece) {
    && piece in st.schedule && (peer, piece) in st.peerPieces && (peer, piece) !in st.assignments
    && match op
       case SetMaxAssignments(max) =>
         st.maxAssignments <= NumAssignments(st, peer) < max && NumReplicates(st, piece) < st.maxReplicates
       case SetMaxReplicates(max) =>
         st.maxReplicates <= NumReplicates(st, piece) < max && NumAssignments(st, peer) < st.maxAssignments
       case _ => false
  }

  predicate BackedOff(st: State, peer: Peer, piece: Piece, now: nat) {
    (peer, piece) in st.backoffs && !IsExpired(st.backoffs[(peer, piece)], now)
  }

  /** Some pair waits for nothing but the limit that the event raises, and no backoff
      holds it up. */
  ghost predicate Frees(st: State, op: Op, now: nat) {
    exists peer: Peer, piece: Piece :: FreesPair(st, op, peer, piece) && !BackedOff(st, peer, piece, now)
  }

  /** After raising or lowering a limit, the pairs in between are assignable and no others
      are new. */
  lemma LimitChange(st: State, op: Op, now: nat, base: nat, st': State, peer: Peer, piece: Piece)
    requires Step(st, op, now, base, st') && (op.SetMaxAssignments? || op.SetMaxReplicates?)
    ensures FreesPair(st, op, peer, piece) && !BackedOff(st, peer, piece, now) ==>
              Assignable(st', peer, piece, now) && !Assignable(st, peer, piece, now)
    ensures Assignable(st', peer, piece, now) ==>
              Assignable(st, peer, piece, now) || (FreesPair(st, op, peer, piece) && !BackedOff(st, peer, piece, now))
  {
  }

  /** Local repair is enough: an event leaves a pair newly assignable exactly when it
      raises a limit and some pair waited for nothing else; there the source does not
      reschedule. */
  lemma StepNoNew(st: State, op: Op, now: nat, base: nat, st': State)
    requires Valid(st) && Step(st, op, now, base, st')
    ensures NoNew(st, st', now) <==> !Frees(st, op, now)
  {
    if op.SetMaxAssignments? || op.SetMaxReplicates? {
      forall q: Peer, x: Piece
        ensures FreesPair(st, op, q, x) && !BackedOff(st, q, x, now) ==>
                  Assignable(st', q, x, now) && !Assignable(st, q, x, now)
        ensures Assignable(st', q, x, now) ==>
                  Assignable(st, q, x, now) || (FreesPair(st, op, q, x) && !BackedOff(st, q, x, now))
      {
        LimitChange(st, op, now, base, st', q, x);
      }
    } else {
      RepairNoNew(st, op, now, base, st');
    }
  }

  lemma RepairNoNew(st: State, op: Op, now: nat, base: nat, st': State)
    requires Valid(st) && Step(st, op, now, base, st') && !op.SetMaxAssignments? && !op.SetMaxReplicates?
    ensures NoNew(st, st', now)
  {
    match op {
      case Schedule => ScheduleMaximal(st, now, st');
      case PeerStart(_) =>
      case PeerStop(peer) => StopNoNew(st, peer, now, st');
      case Possess(peer, p) =>
        if ValidPossession(p, st.numPieces) {
          PossessNoNew(st, peer, p, now);
        }
      case ResponseError(peer, piece) =>
        if (peer, piece) in st.assignments {
          ErrorNoNew(st, peer, piece, now, base, SchedulePeer(Errored(st, peer, piece, now, base), peer, now), st');
        }
      case Verified(piece) =>
        if piece in st.schedule {
          VerifiedNoNew(st, piece, now, st');
        }
      case Assign(peer, piece) =>
        forall q: Peer, x: Piece ensures Assignable(st', q, x, now) ==> Assignable(st, q, x, now) {
          MoreAssignments(st, st', q, x, now);
        }
      case RemoveExpired =>
        forall q: Peer, x: Piece | Assignable(st', q, x, now)
          ensures Assignable(st, q, x, now) && ((q, x) in st.backoffs <==> (q, x) in st'.backoffs)
        {
          PurgeNoNew(st, now, st', q, x);
        }
      case TakeUpdated =>
    }
  }

  /** So a maximal assignment stays maximal, at the clock reading of the event, exactly
      when the event frees no pair. */
  lemma MaximalIsKept(st: State, op: Op, now: nat, base: nat, st': State)
    requires Valid(st) && Step(st, op, now, base, st') && Maximal(st, now)
    ensures Maximal(st', now) <==> !Frees(st, op, now)
  {
    StepNoNew(st, op, now, base, st');
  }

  /** Every assignable pair has a backoff, necessarily an expired one. */
  ghost predicate AlmostMaximal(st: State, now: nat) {
    forall peer: Peer, piece: Piece :: Assignable(st, peer, piece, now) ==> (peer, piece) in st.backoffs
  }

  /** The event frees a pair that has no backoff. */
  ghost predicate Strands(st: State, op: Op) {
    exists peer: Peer, piece: Piece :: FreesPair(st, op, peer, piece) && (peer, piece) !in st.backoffs
  }

  /** Being maximal up to expired backoffs is kept exactly when no pair without a backoff
      is freed. */
  lemma AlmostMaximalIsKept(st: State, op: Op, now: nat, base: nat, st': State)
    requires Valid(st) && Step(st, op, now, base, st') && AlmostMaximal(st, now)
    ensures AlmostMaximal(st', now) <==> !Strands(st, op)
  {
    if op.SetMaxAssignments? || op.SetMaxReplicates? {
      forall q: Peer, x: Piece
        ensures FreesPair(st, op, q, x) && (q, x) !in st.backoffs ==> Assignable(st', q, x, now)
        ensures Assignable(st', q, x, now) && (q, x) !in st.backoffs ==> FreesPair(st, op, q, x)
      {
        LimitChange(st, op, now, base, st', q, x);
      }
    } else {
      RepairNoNew(st, op, now, base, st');
    }
  }

  lemma RemoveExpiredMaximal(st: State, now: nat, st': State)
    requires Valid(st) && AlmostMaximal(st, now)
    requires SchedulePeersStep(Purged(st, now), Peers(Expired(st, now)), now, st')
    ensures Maximal(st', now)
  {
    forall q: Peer, x: Piece ensures !Assignable(st', q, x, now) {
      if Assignable(st', q, x, now) {
        PurgeNoNew(st, now, st', q, x);
      }
    }
  }

  /** As time passes, only backoffs expire. */
  lemma TimePasses(st: State, now: nat, later: nat)
    requires AlmostMaximal(st, now) && now <= later
    ensures AlmostMaximal(st, later)
  {
    forall q: Peer, x: Piece | Assignable(st, q, x, later) ensures (q, x) in st.backoffs {
      if (q, x) !in st.backoffs {
        assert Assignable(st, q, x, now);
      }
    }
  }

  /** The deadlines that have not passed. */
  function Deadlines(st: State, now: nat): set<nat> {
    set e | e in st.backoffs && !IsExpired(st.backoffs[e], now) :: st.backoffs[e].deadline
  }

  /** Sleeping until the nearest deadline misses nothing: a maximal assignment stays
      maximal at every earlier time. */
  lemma MaximalUntilNextDeadline(st: State, now: nat, later: nat)
    requires Maximal(st, now) && now <= later
    requires forall d :: d in Deadlines(st, now) ==> later < d
    ensures Maximal(st, later)
  {
    forall q: Peer, x: Piece ensures !Assignable(st, q, x, later) {
      assert !Assignable(st, q, x, now);
      if (q, x) in st.backoffs && !IsExpired(st.backoffs[(q, x)], now) {
        assert st.backoffs[(q, x)].deadline in Deadlines(st, now);
      }
    }
  }
}
