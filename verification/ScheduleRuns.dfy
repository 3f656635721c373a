/**
  Runs of the piece scheduler: what holds between all the events of every run
  (rust/bittorrent/transceiver/src/schedule.rs).
 */
module ScheduleRuns {
  import opened Common
  import opened Sorting
  import opened Schedules
  import opened ScheduleEvents

  /** Pieces we lack, in ascending order. */
  function Lacking(have: seq<bool>, from: nat): seq<Piece>
    requires from <= |have|
    decreases |have| - from
  {
    if from == |have| then []
    else (if have[from] then [] else [from]) + Lacking(have, from + 1)
  }

  function NewState(have: seq<bool>, maxAssignments: nat, maxReplicates: nat): State {
    State(|have|, {}, Lacking(have, 0), {}, maxAssignments, maxReplicates, {}, map[])
  }

  lemma {:induction false} LackingAscends(have: seq<bool>, from: nat)
    requires from <= |have|
    ensures forall x :: x in Lacking(have, from) <==> from <= x < |have| && !have[x]
    ensures forall i, j :: 0 <= i < j < |Lacking(have, from)| ==> Lacking(have, from)[i] < Lacking(have, from)[j]
    decreases |have| - from
  {
    if from < |have| {
      LackingAscends(have, from + 1);
      var rest := Lacking(have, from + 1);
      forall k | 0 <= k < |rest| ensures from < rest[k] {
        assert rest[k] in rest;
      }
    }
  }

  /** A new scheduler is valid, schedules exactly the pieces we lack, in ascending order,
      and has nothing to assign. */
  lemma NewStateValid(have: seq<bool>, maxAssignments: nat, maxReplicates: nat)
    ensures Valid(NewState(have, maxAssignments, maxReplicates))
    ensures forall now :: Maximal(NewState(have, maxAssignments, maxReplicates), now)
    ensures var schedule := NewState(have, maxAssignments, maxReplicates).schedule;
            && (forall x: Piece :: x in schedule <==> x < |have| && !have[x])
            && (forall i, j :: 0 <= i < j < |schedule| ==> schedule[i] < schedule[j])
  {
    LackingAscends(have, 0);
    var key := RarityKey({});
    forall x: Piece ensures key(x) == 0 {
      assert PeersOf({}, x) == {};
    }
  }

  // ---- The structural invariant ----

  /** `st'` has more assignments, all of scheduled pieces, and is otherwise `st`. */
  ghost predicate Extends(st: State, st': State) {
    && st.assignments <= st'.assignments
    && st' == st.(assignments := st'.assignments, updated := st'.updated)
    && forall e :: e in st'.assignments ==> e in st.assignments || e.1 in st.schedule
  }

  lemma SchedulePeerExtends(st: State, peer: Peer, now: nat)
    requires Distinct(st.schedule)
    ensures Extends(st, SchedulePeer(st, peer, now))
  {
    ChosenPiecesProperties(st, peer, now);
  }

  lemma {:induction false} SchedulePeersExtend(st: State, order: seq<Peer>, now: nat)
    requires Distinct(st.schedule)
    ensures Extends(st, SchedulePeersInOrder(st, order, now))
    decreases |order|
  {
    if order != [] {
      SchedulePeerExtends(st, order[0], now);
      SchedulePeersExtend(SchedulePeer(st, order[0], now), order[1..], now);
    }
  }

  lemma SchedulePieceExtends(st: State, piece: Piece, now: nat, st': State)
    requires SchedulePieceStep(st, piece, now, st') && piece in st.schedule
    ensures Extends(st, st')
  {
    SchedulePieceClears(st, piece, now, st', 0);
  }

  lemma {:induction false} SchedulePiecesExtend(st: State, pieces: seq<Piece>, now: nat, st': State)
    requires SchedulePiecesStep(st, pieces, now, st')
    requires forall k :: 0 <= k < |pieces| ==> pieces[k] in st.schedule
    ensures Extends(st, st')
    decreases |pieces|
  {
    if pieces != [] {
      var n := |pieces| - 1;
      var m := LastPiece(st, pieces, now, st');
      SchedulePiecesExtend(st, pieces[..n], now, m);
      SchedulePieceExtends(m, pieces[n], now, st');
    }
  }

  lemma StoppedValid(st: State, peer: Peer)
    requires Valid(st)
    ensures Valid(Stopped(st, peer))
  {
    var u := st.(peerPieces := WithoutPeer(st.peerPieces, peer));
    SortKeeps(u);
    forall e | e in WithoutPeer(st.assignments, peer) ensures e.1 in SortSchedule(u).schedule {
      ScheduleMember(u, e.1);
    }
  }

  lemma PossessedValid(st: State, peer: Peer, p: Possession)
    requires Valid(st) && ValidPossession(p, st.numPieces)
    ensures Valid(Possessed(st, peer, p))
  {
    var u := st.(peerPieces := Owned(st.peerPieces, peer, p, st.numPieces));
    SortKeeps(u);
    forall e | e in st.assignments ensures e.1 in SortSchedule(u).schedule {
      ScheduleMember(u, e.1);
    }
  }

  lemma FinishedValid(st: State, piece: Piece)
    requires Valid(st)
    ensures Valid(Finished(st, piece))
  {
    UnscheduledKeeps(st.schedule, piece, RarityKey(st.peerPieces));
    forall e | e in WithoutPiece(st.assignments, piece) ensures e.1 in Unscheduled(st.schedule, piece) {
      UnscheduledMember(st.schedule, piece, e.1);
    }
  }

  lemma SchedulePeersValid(st: State, peers: set<Peer>, now: nat, st': State)
    requires Valid(st) && SchedulePeersStep(st, peers, now, st')
    ensures Valid(st')
  {
    var order: seq<Peer> :| PeerOrder(order, peers, st.peerPieces) && st' == SchedulePeersInOrder(st, order, now);
    SchedulePeersExtend(st, order, now);
  }

  lemma StopValid(st: State, peer: Peer, now: nat, st': State)
    requires Valid(st)
    requires var m := Stopped(st, peer);
             SchedulePiecesStep(m, Only(m.schedule, PiecesOf(st.assignments, peer)), now, st')
    ensures Valid(st')
  {
    var m := Stopped(st, peer);
    var pieces := Only(m.schedule, PiecesOf(st.assignments, peer));
    StoppedValid(st, peer);
    forall k | 0 <= k < |pieces| ensures pieces[k] in m.schedule {
      OnlyMember(m.schedule, PiecesOf(st.assignments, peer), pieces[k]);
    }
    SchedulePiecesExtend(m, pieces, now, st');
  }

  /** Assigned pieces are always scheduled, so looking up their position never
      fails; the schedule stays free of duplicates and rarest-first. */
  lemma StepValid(st: State, op: Op, now: nat, base: nat, st': State)
    requires Valid(st) && Step(st, op, now, base, st')
    ensures Valid(st')
  {
    match op {
      case Schedule => SchedulePeersValid(st, Peers(st.peerPieces), now, st');
      case PeerStart(_) =>
      case PeerStop(peer) => StopValid(st, peer, now, st');
      case Possess(peer, p) =>
        if ValidPossession(p, st.numPieces) {
          PossessedValid(st, peer, p);
          SchedulePeerExtends(Possessed(st, peer, p), peer, now);
        }
      case ResponseError(peer, piece) =>
        if (peer, piece) in st.assignments {
          var m := Errored(st, peer, piece, now, base);
          SchedulePeerExtends(m, peer, now);
          SchedulePieceExtends(SchedulePeer(m, peer, now), piece, now, st');
        }
      case Verified(piece) =>
        if piece in st.schedule {
          FinishedValid(st, piece);
          SchedulePeersValid(Finished(st, piece), PeersOf(st.assignments, piece), now, st');
        }
      case Assign(_, _) =>
      case RemoveExpired =>
        SchedulePeersValid(Purged(st, now), Peers(Expired(st, now)), now, st');
      case TakeUpdated =>
      case SetMaxAssignments(_) =>
      case SetMaxReplicates(_) =>
    }
  }

  // ---- Limits ----

  ghost predicate WithinLimits(st: State) {
    && (forall peer: Peer :: NumAssignments(st, peer) <= st.maxAssignments)
    && (forall piece: Piece :: NumReplicates(st, piece) <= st.maxReplicates)
  }

  /** The event breaks a limit: it assigns a new pair although a count is at its limit,
      or sets a limit below a count. */
  ghost predicate Exceeds(st: State, op: Op) {
    match op
    case Assign(peer, piece) =>
      && piece in st.schedule && (peer, piece) !in st.assignments
      && (NumAssignments(st, peer) >= st.maxAssignments || NumReplicates(st, piece) >= st.maxReplicates)
    case SetMaxAssignments(max) => exists peer: Peer :: NumAssignments(st, peer) > max
    case SetMaxReplicates(max) => exists piece: Piece :: NumReplicates(st, piece) > max
    case _ => false
  }

  lemma PiecesAfterAssign(g: Graph, peer: Peer, piece: Piece, q: Peer)
    requires (peer, piece) !in g
    ensures |PiecesOf(g + {(peer, piece)}, q)| == |PiecesOf(g, q)| + if q == peer then 1 else 0
  {
    var g' := g + {(peer, piece)};
    forall y | y in PiecesOf(g, q) ensures y in PiecesOf(g', q) {
      assert (q, y) in g';
    }
    if q == peer {
      assert (peer, piece) in g' && piece !in PiecesOf(g, q);
      assert PiecesOf(g', q) == PiecesOf(g, q) + {piece};
    } else {
      assert PiecesOf(g', q) == PiecesOf(g, q);
    }
  }

  lemma PeersAfterAssign(g: Graph, peer: Peer, piece: Piece, x: Piece)
    requires (peer, piece) !in g
    ensures |PeersOf(g + {(peer, piece)}, x)| == |PeersOf(g, x)| + if x == piece then 1 else 0
  {
    var g' := g + {(peer, piece)};
    forall y | y in PeersOf(g, x) ensures y in PeersOf(g', x) {
      assert (y, x) in g';
    }
    if x == piece {
      assert (peer, piece) in g' && peer !in PeersOf(g, x);
      assert PeersOf(g', x) == PeersOf(g, x) + {peer};
    } else {
      assert PeersOf(g', x) == PeersOf(g, x);
    }
  }

  lemma AssignLimits(st: State, peer: Peer, piece: Piece, now: nat, base: nat, st': State)
    requires WithinLimits(st) && Step(st, Assign(peer, piece), now, base, st')
    ensures WithinLimits(st') <==> !Exceeds(st, Assign(peer, piece))
  {
    if piece in st.schedule && (peer, piece) !in st.assignments {
      forall q: Peer, x: Piece
        ensures NumAssignments(st', q) == NumAssignments(st, q) + if q == peer then 1 else 0
        ensures NumReplicates(st', x) == NumReplicates(st, x) + if x == piece then 1 else 0
      {
        PiecesAfterAssign(st.assignments, peer, piece, q);
        PeersAfterAssign(st.assignments, peer, piece, x);
      }
    }
  }

  // What one more peer does to a piece's count.
  lemma ReplicatesAfterPeer(st: State, peer: Peer, now: nat, piece: Piece)
    requires Distinct(st.schedule)
    ensures var n := NumReplicates(SchedulePeer(st, peer, now), piece);
            n == NumReplicates(st, piece) || (n == NumReplicates(st, piece) + 1 && n <= st.maxReplicates)
  {
    var chosen := ChosenPieces(st, peer, now);
    ChosenPiecesProperties(st, peer, now);
    var before, after := PeersOf(st.assignments, piece), PeersOf(SchedulePeer(st, peer, now).assignments, piece);
    forall q | q in before ensures q in after {
      assert (q, piece) in st.assignments + Edges(peer, chosen);
    }
    if piece in chosen {
      assert (peer, piece) in Edges(peer, chosen);
      assert after == before + {peer};
    } else {
      assert after == before;
    }
  }

  lemma OtherPeerUnchanged(st: State, peer: Peer, now: nat, other: Peer)
    requires other != peer
    ensures NumAssignments(SchedulePeer(st, peer, now), other) == NumAssignments(st, other)
  {
    var after := SchedulePeer(st, peer, now).assignments;
    forall x | x in PiecesOf(st.assignments, other) ensures x in PiecesOf(after, other) {
      assert (other, x) in after;
    }
    assert PiecesOf(after, other) == PiecesOf(st.assignments, other);
  }

  lemma SchedulePeerLimits(st: State, peer: Peer, now: nat)
    requires Distinct(st.schedule) && WithinLimits(st)
    ensures WithinLimits(SchedulePeer(st, peer, now))
  {
    var st' := SchedulePeer(st, peer, now);
    forall q: Peer ensures NumAssignments(st', q) <= st'.maxAssignments {
      if q == peer {
        ChosenPiecesProperties(st, peer, now);
      } else {
        OtherPeerUnchanged(st, peer, now, q);
      }
    }
    forall x: Piece ensures NumReplicates(st', x) <= st'.maxReplicates {
      ReplicatesAfterPeer(st, peer, now, x);
    }
  }

  lemma {:induction false} SchedulePeersLimits(st: State, order: seq<Peer>, now: nat)
    requires Distinct(st.schedule) && WithinLimits(st)
    ensures WithinLimits(SchedulePeersInOrder(st, order, now))
    decreases |order|
  {
    if order != [] {
      SchedulePeerLimits(st, order[0], now);
      SchedulePeersLimits(SchedulePeer(st, order[0], now), order[1..], now);
    }
  }

  // What one more piece does to a peer's count.
  lemma AssignmentsAfterPiece(st: State, piece: Piece, order: seq<Peer>, now: nat, peer: Peer)
    requires Elems(order) == EligiblePeers(st, piece, now)
    ensures var n := NumAssignments(AssignPiece(st, piece, order), peer);
            n == NumAssignments(st, peer) || (n == NumAssignments(st, peer) + 1 && n <= st.maxAssignments)
  {
    var chosen := Take(order, Minus(st.maxReplicates, NumReplicates(st, piece)));
    var g' := st.assignments + EdgesTo(chosen, piece);
    var before, after := PiecesOf(st.assignments, peer), PiecesOf(g', peer);
    forall x | x in before ensures x in after {
      assert (peer, x) in g';
    }
    if peer in chosen {
      assert peer in Elems(order);
      assert (peer, piece) in EdgesTo(chosen, piece);
      assert after == before + {piece};
    } else {
      assert after == before;
    }
  }

  lemma OtherPieceUnchanged(st: State, piece: Piece, order: seq<Peer>, other: Piece)
    requires other != piece
    ensures NumReplicates(AssignPiece(st, piece, order), other) == NumReplicates(st, other)
  {
    var after := AssignPiece(st, piece, order).assignments;
    forall q | q in PeersOf(st.assignments, other) ensures q in PeersOf(after, other) {
      assert (q, other) in after;
    }
    assert PeersOf(after, other) == PeersOf(st.assignments, other);
  }

  lemma SchedulePieceLimits(st: State, piece: Piece, now: nat, st': State)
    requires WithinLimits(st) && SchedulePieceStep(st, piece, now, st')
    ensures WithinLimits(st')
  {
    var order: seq<Peer> :| Distinct(order) && PeerOrder(order, EligiblePeers(st, piece, now), st.peerPieces)
                            && st' == AssignPiece(st, piece, order);
    forall q: Peer ensures NumAssignments(st', q) <= st'.maxAssignments {
      AssignmentsAfterPiece(st, piece, order, now, q);
    }
    forall x: Piece ensures NumReplicates(st', x) <= st'.maxReplicates {
      if x == piece {
        AssignPieceCounts(st, piece, order, now);
      } else {
        OtherPieceUnchanged(st, piece, order, x);
      }
    }
  }

  lemma {:induction false} SchedulePiecesLimits(st: State, pieces: seq<Piece>, now: nat, st': State)
    requires WithinLimits(st) && SchedulePiecesStep(st, pieces, now, st')
    ensures WithinLimits(st')
    decreases |pieces|
  {
    if pieces != [] {
      var n := |pieces| - 1;
      var m := LastPiece(st, pieces, now, st');
      SchedulePiecesLimits(st, pieces[..n], now, m);
      SchedulePieceLimits(m, pieces[n], now, st');
    }
  }

  lemma FewerWithinLimits(st: State, st': State)
    requires WithinLimits(st) && st'.assignments <= st.assignments
    requires st'.maxAssignments >= st.maxAssignments && st'.maxReplicates >= st.maxReplicates
    ensures WithinLimits(st')
  {
    forall q: Peer ensures NumAssignments(st', q) <= st'.maxAssignments {
      CountsGrow(st'.assignments, st.assignments, q, 0);
      assert NumAssignments(st, q) <= st.maxAssignments;
    }
    forall x: Piece ensures NumReplicates(st', x) <= st'.maxReplicates {
      CountsGrow(st'.assignments, st.assignments, 0, x);
      assert NumReplicates(st, x) <= st.maxReplicates;
    }
  }

  lemma SchedulePeersStepLimits(st: State, peers: set<Peer>, now: nat, st': State)
    requires Distinct(st.schedule) && WithinLimits(st) && SchedulePeersStep(st, peers, now, st')
    ensures WithinLimits(st')
  {
    var order: seq<Peer> :| PeerOrder(order, peers, st.peerPieces) && st' == SchedulePeersInOrder(st, order, now);
    SchedulePeersLimits(st, order, now);
  }

  /** An event keeps both limits exactly when it is not an explicit assignment past one,
      nor a limit set below a count. */
  lemma StepLimits(st: State, op: Op, now: nat, base: nat, st': State)
    requires Valid(st) && WithinLimits(st) && Step(st, op, now, base, st')
    ensures WithinLimits(st') <==> !Exceeds(st, op)
  {
    match op {
      case Schedule => SchedulePeersStepLimits(st, Peers(st.peerPieces), now, st');
      case PeerStart(_) =>
      case PeerStop(peer) =>
        FewerWithinLimits(st, Stopped(st, peer));
        var m := Stopped(st, peer);
        SchedulePiecesLimits(m, Only(m.schedule, PiecesOf(st.assignments, peer)), now, st');
      case Possess(peer, p) =>
        if ValidPossession(p, st.numPieces) {
          FewerWithinLimits(st, Possessed(st, peer, p));
          PossessedValid(st, peer, p);
          SchedulePeerLimits(Possessed(st, peer, p), peer, now);
        }
      case ResponseError(peer, piece) =>
        if (peer, piece) in st.assignments {
          var m := Errored(st, peer, piece, now, base);
          FewerWithinLimits(st, m);
          SchedulePeerLimits(m, peer, now);
          SchedulePieceLimits(SchedulePeer(m, peer, now), piece, now, st');
        }
      case Verified(piece) =>
        if piece in st.schedule {
          FewerWithinLimits(st, Finished(st, piece));
          FinishedValid(st, piece);
          SchedulePeersStepLimits(Finished(st, piece), PeersOf(st.assignments, piece), now, st');
        }
      case Assign(peer, piece) => AssignLimits(st, peer, piece, now, base, st');
      case RemoveExpired =>
        FewerWithinLimits(st, Purged(st, now));
        SchedulePeersStepLimits(Purged(st, now), Peers(Expired(st, now)), now, st');
      case TakeUpdated => FewerWithinLimits(st, st');
      case SetMaxAssignments(max) =>
        assert forall q: Peer :: NumAssignments(st', q) == NumAssignments(st, q);
        assert forall x: Piece :: NumReplicates(st', x) == NumReplicates(st, x);
      case SetMaxReplicates(max) =>
        assert forall q: Peer :: NumAssignments(st', q) == NumAssignments(st, q);
        assert forall x: Piece :: NumReplicates(st', x) == NumReplicates(st, x);
    }
  }

  // ---- Runs ----

  datatype Event = Event(op: Op, now: nat)

  /** A run from a new scheduler, under a clock that does not go back. */
  ghost predicate Run(have: seq<bool>, maxA: nat, maxR: nat, base: nat, events: seq<Event>, sts: seq<State>) {
    && |sts| == |events| + 1
    && sts[0] == NewState(have, maxA, maxR)
    && (forall k :: 0 <= k < |events| ==> Step(sts[k], events[k].op, events[k].now, base, sts[k + 1]))
    && (forall j, k :: 0 <= j < k < |events| ==> events[j].now <= events[k].now)
  }

  lemma {:induction false} RunValid(have: seq<bool>, maxA: nat, maxR: nat, base: nat,
                                    events: seq<Event>, sts: seq<State>, n: nat)
    requires Run(have, maxA, maxR, base, events, sts) && n < |sts|
    ensures Valid(sts[n])
  {
    if n == 0 {
      NewStateValid(have, maxA, maxR);
    } else {
      RunValid(have, maxA, maxR, base, events, sts, n - 1);
      assert Step(sts[n - 1], events[n - 1].op, events[n - 1].now, base, sts[n - 1 + 1]);
      StepValid(sts[n - 1], events[n - 1].op, events[n - 1].now, base, sts[n]);
    }
  }

  ghost predicate AllWithin(sts: seq<State>, n: nat)
    requires n < |sts|
  {
    forall k :: 0 <= k <= n ==> WithinLimits(sts[k])
  }

  ghost predicate NoneExceeds(events: seq<Event>, sts: seq<State>, n: nat)
    requires n <= |events| && n <= |sts|
  {
    forall k :: 0 <= k < n ==> !Exceeds(sts[k], events[k].op)
  }

  lemma OneMore(events: seq<Event>, sts: seq<State>, n: nat)
    requires |sts| == |events| + 1 && 0 < n < |sts|
    ensures AllWithin(sts, n) <==> AllWithin(sts, n - 1) && WithinLimits(sts[n])
    ensures NoneExceeds(events, sts, n) <==> NoneExceeds(events, sts, n - 1) && !Exceeds(sts[n - 1], events[n - 1].op)
    ensures AllWithin(sts, n - 1) ==> WithinLimits(sts[n - 1])
  {
  }

  lemma NewWithinLimits(have: seq<bool>, maxA: nat, maxR: nat)
    ensures WithinLimits(NewState(have, maxA, maxR))
  {
    assert forall q: Peer :: PiecesOf({}, q) == {};
    assert forall x: Piece :: PeersOf({}, x) == {};
  }

  /** Both limits have held all along exactly when no event so far broke one. */
  lemma {:induction false} RunWithinLimits(have: seq<bool>, maxA: nat, maxR: nat, base: nat,
                                           events: seq<Event>, sts: seq<State>, n: nat)
    requires Run(have, maxA, maxR, base, events, sts) && n < |sts|
    ensures AllWithin(sts, n) <==> NoneExceeds(events, sts, n)
  {
    if n == 0 {
      NewWithinLimits(have, maxA, maxR);
    } else {
      RunWithinLimits(have, maxA, maxR, base, events, sts, n - 1);
      OneMore(events, sts, n);
      RunStep(have, maxA, maxR, base, events, sts, n - 1);
      if AllWithin(sts, n - 1) {
        StepLimits(sts[n - 1], events[n - 1].op, events[n - 1].now, base, sts[n]);
      }
    }
  }

  /** Every event that frees a pair without a backoff has been followed by a `schedule`,
      as the caller does when it raises both limits for the endgame. */
  ghost predicate Settled(events: seq<Event>, sts: seq<State>, n: nat)
    requires |sts| == |events| + 1 && n < |sts|
  {
    forall k :: 0 <= k < n && Strands(sts[k], events[k].op) ==> exists j :: k < j < n && events[j].op.Schedule?
  }

  /**
    Local repair over whole runs: once every raised limit has been followed by a
    `schedule`, at every moment every assignable pair has an expired backoff, so each time
    the expired backoffs are removed (or everything is rescheduled) no assignable pair is
    left.
   */
  lemma {:induction false} RunAlmostMaximal(have: seq<bool>, maxA: nat, maxR: nat, base: nat,
                                            events: seq<Event>, sts: seq<State>, n: nat, now: nat)
    requires Run(have, maxA, maxR, base, events, sts) && n < |sts| && Settled(events, sts, n)
    requires n > 0 ==> events[n - 1].now <= now
    ensures AlmostMaximal(sts[n], now)
    ensures (n > 0 && events[n - 1].now == now && (events[n - 1].op.RemoveExpired? || events[n - 1].op.Schedule?)) ==>
              Maximal(sts[n], now)
    decreases n
  {
    if n == 0 {
      NewStateValid(have, maxA, maxR);
      assert Maximal(sts[0], now);
    } else {
      var e := events[n - 1];
      RunStep(have, maxA, maxR, base, events, sts, n - 1);
      if !e.op.Schedule? {
        SettledBefore(events, sts, n);
        RunAlmostMaximal(have, maxA, maxR, base, events, sts, n - 1, e.now);
      }
      StepAlmostMaximal(sts[n - 1], e.op, e.now, base, sts[n], now);
    }
  }

  // One step of a run, in the form the step lemmas want it.
  lemma RunStep(have: seq<bool>, maxA: nat, maxR: nat, base: nat, events: seq<Event>, sts: seq<State>, k: nat)
    requires Run(have, maxA, maxR, base, events, sts) && k < |events|
    ensures Valid(sts[k]) && Step(sts[k], events[k].op, events[k].now, base, sts[k + 1])
    ensures k > 0 ==> events[k - 1].now <= events[k].now
  {
    RunValid(have, maxA, maxR, base, events, sts, k);
  }

  lemma StepAlmostMaximal(st: State, op: Op, at: nat, base: nat, st': State, now: nat)
    requires Valid(st) && Step(st, op, at, base, st') && at <= now
    requires op.Schedule? || (AlmostMaximal(st, at) && !Strands(st, op))
    ensures AlmostMaximal(st', now)
    ensures at == now && (op.RemoveExpired? || op.Schedule?) ==> Maximal(st', now)
  {
    if op.Schedule? {
      ScheduleMaximal(st, at, st');
    } else {
      AlmostMaximalIsKept(st, op, at, base, st');
      if op.RemoveExpired? {
        RemoveExpiredMaximal(st, at, st');
      }
    }
    TimePasses(st', at, now);
  }

  /** Raising both limits and then calling `schedule`, as the caller does on entering the
      endgame, leaves nothing unsettled. */
  lemma EndgameSettles(events: seq<Event>, sts: seq<State>, n: nat, maxA: nat, maxR: nat)
    requires |sts| == |events| + 1 && n + 3 < |sts| && Settled(events, sts, n)
    requires events[n].op == SetMaxAssignments(maxA) && events[n + 1].op == SetMaxReplicates(maxR)
    requires events[n + 2].op == Schedule
    ensures Settled(events, sts, n + 3)
  {
    forall k | 0 <= k < n + 3 && Strands(sts[k], events[k].op)
      ensures exists j :: k < j < n + 3 && events[j].op.Schedule?
    {
      if k < n {
        var j :| k < j < n && events[j].op.Schedule?;
        assert k < j < n + 3;
      } else {
        assert events[n + 2].op.Schedule?;
      }
    }
  }

  lemma SettledBefore(events: seq<Event>, sts: seq<State>, n: nat)
    requires |sts| == |events| + 1 && 0 < n < |sts| && Settled(events, sts, n) && !events[n - 1].op.Schedule?
    ensures Settled(events, sts, n - 1) && !Strands(sts[n - 1], events[n - 1].op)
  {
  }
}
