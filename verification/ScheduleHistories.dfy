/**
  The state of the scheduler told from the events of a run
  (rust/bittorrent/transceiver/src/schedule.rs): what is scheduled, who owns what, who
  backs off for how long, and whose assignments have grown.
 */
module ScheduleHistories {
  import opened Common
  import opened Schedules
  import opened ScheduleEvents
  import opened ScheduleRuns

  // ---- One event: an edit, then new assignments ----

  /** The edit that an event makes before anything is assigned. */
  ghost function Edited(st: State, op: Op, now: nat, base: nat): State {
    match op
    case PeerStop(peer) => Stopped(st, peer)
    case Possess(peer, p) => if ValidPossession(p, st.numPieces) then Possessed(st, peer, p) else st
    case ResponseError(peer, piece) =>
      if (peer, piece) in st.assignments then Errored(st, peer, piece, now, base) else st
    case Verified(piece) => if piece in st.schedule then Finished(st, piece) else st
    case RemoveExpired => Purged(st, now)
    case TakeUpdated => st.(updated := {})
    case SetMaxAssignments(max) => st.(maxAssignments := max)
    case SetMaxReplicates(max) => st.(maxReplicates := max)
    case _ => st
  }

  ghost predicate Gains(st: State, st': State, peer: Peer) {
    exists x: Piece :: (peer, x) in st'.assignments && (peer, x) !in st.assignments
  }

  /** A new pair is scheduled and owned, and no backoff is pending for it. */
  ghost predicate IsFair(st: State, e: (Peer, Piece), now: nat) {
    && e.1 in st.schedule && e in st.peerPieces
    && (e in st.backoffs ==> st.backoffs[e].deadline <= now)
  }

  /** `st'` is `st` with more assignments, and exactly the peers that got some are
      marked. */
  ghost predicate Assigns(st: State, st': State) {
    && st.assignments <= st'.assignments
    && st' == st.(assignments := st'.assignments, updated := st'.updated)
    && forall peer: Peer :: peer in st'.updated <==> peer in st.updated || Gains(st, st', peer)
  }

  ghost predicate Fairly(st: State, st': State, now: nat) {
    forall e :: e in st'.assignments ==> e in st.assignments || IsFair(st, e, now)
  }

  lemma AssignsTwice(st: State, m: State, st': State)
    requires Assigns(st, m) && Assigns(m, st')
    ensures Assigns(st, st')
  {
    forall peer: Peer ensures Gains(st, st', peer) <==> Gains(st, m, peer) || Gains(m, st', peer) {
      if Gains(st, m, peer) {
        var x: Piece :| (peer, x) in m.assignments && (peer, x) !in st.assignments;
        assert (peer, x) in st'.assignments;
      }
    }
  }

  lemma SchedulePeerAssigns(st: State, peer: Peer, now: nat)
    requires Distinct(st.schedule)
    ensures Assigns(st, SchedulePeer(st, peer, now)) && Fairly(st, SchedulePeer(st, peer, now), now)
  {
    var chosen := ChosenPieces(st, peer, now);
    var st' := SchedulePeer(st, peer, now);
    ChosenPiecesProperties(st, peer, now);
    assert chosen != [] ==> (peer, chosen[0]) in st'.assignments && (peer, chosen[0]) !in st.assignments;
    assert chosen == [] ==> Edges(peer, chosen) == {};
  }

  lemma {:induction false} SchedulePeersAssign(st: State, order: seq<Peer>, now: nat)
    requires Distinct(st.schedule)
    ensures Assigns(st, SchedulePeersInOrder(st, order, now)) && Fairly(st, SchedulePeersInOrder(st, order, now), now)
    decreases |order|
  {
    if order != [] {
      var m := SchedulePeer(st, order[0], now);
      SchedulePeerAssigns(st, order[0], now);
      SchedulePeersAssign(m, order[1..], now);
      AssignsTwice(st, m, SchedulePeersInOrder(st, order, now));
    }
  }

  lemma PeersStepAssigns(st: State, peers: set<Peer>, now: nat, st': State)
    requires Distinct(st.schedule) && SchedulePeersStep(st, peers, now, st')
    ensures Assigns(st, st') && Fairly(st, st', now)
  {
    var order: seq<Peer> :| PeerOrder(order, peers, st.peerPieces) && st' == SchedulePeersInOrder(st, order, now);
    SchedulePeersAssign(st, order, now);
  }

  lemma SchedulePieceAssigns(st: State, piece: Piece, now: nat, st': State)
    requires SchedulePieceStep(st, piece, now, st') && piece in st.schedule
    ensures Assigns(st, st') && Fairly(st, st', now)
  {
    var order: seq<Peer> :|
      && Distinct(order) && PeerOrder(order, EligiblePeers(st, piece, now), st.peerPieces)
      && st' == AssignPiece(st, piece, order);
    forall peer: Peer ensures peer in st'.updated <==> peer in st.updated || Gains(st, st', peer) {
      if peer in order {
        assert peer in Elems(order);
      }
      if peer in st'.updated && peer !in st.updated {
        assert (peer, piece) in st'.assignments && (peer, piece) !in st.assignments;
      }
    }
    forall e | e in st'.assignments && e !in st.assignments ensures IsFair(st, e, now) {
      assert e.0 in Elems(order);
    }
  }

  lemma {:induction false} PiecesStepAssigns(st: State, pieces: seq<Piece>, now: nat, st': State)
    requires SchedulePiecesStep(st, pieces, now, st')
    requires forall k :: 0 <= k < |pieces| ==> pieces[k] in st.schedule
    ensures Assigns(st, st') && Fairly(st, st', now)
    decreases |pieces|
  {
    if pieces != [] {
      var n := |pieces| - 1;
      var m := LastPiece(st, pieces, now, st');
      PiecesStepAssigns(st, pieces[..n], now, m);
      SchedulePieceAssigns(m, pieces[n], now, st');
      AssignsTwice(st, m, st');
    }
  }

  lemma EditedDistinct(st: State, op: Op, now: nat, base: nat)
    requires Valid(st)
    ensures Distinct(Edited(st, op, now, base).schedule)
  {
    match op {
      case PeerStop(peer) => StoppedValid(st, peer);
      case Possess(peer, p) =>
        if ValidPossession(p, st.numPieces) {
          PossessedValid(st, peer, p);
        }
      case Verified(piece) =>
        if piece in st.schedule {
          FinishedValid(st, piece);
        }
      case _ =>
    }
  }

  lemma StopAssigns(st: State, peer: Peer, now: nat, st': State)
    requires Valid(st) && Step(st, PeerStop(peer), now, 0, st')
    ensures Assigns(Stopped(st, peer), st') && Fairly(Stopped(st, peer), st', now)
  {
    var m := Stopped(st, peer);
    var pieces := Only(m.schedule, PiecesOf(st.assignments, peer));
    forall k | 0 <= k < |pieces| ensures pieces[k] in m.schedule {
      OnlyMember(m.schedule, PiecesOf(st.assignments, peer), pieces[k]);
    }
    PiecesStepAssigns(m, pieces, now, st');
  }

  lemma ErrorAssigns(m: State, peer: Peer, piece: Piece, now: nat, st': State)
    requires Distinct(m.schedule) && piece in m.schedule
    requires SchedulePieceStep(SchedulePeer(m, peer, now), piece, now, st')
    ensures Assigns(m, st') && Fairly(m, st', now)
  {
    var m' := SchedulePeer(m, peer, now);
    SchedulePeerAssigns(m, peer, now);
    SchedulePieceAssigns(m', piece, now, st');
    AssignsTwice(m, m', st');
  }

  /** Every event is its edit followed by new assignments, which are fair except for an
      explicit one, and whose peers are marked. */
  lemma StepAssigns(st: State, op: Op, now: nat, base: nat, st': State)
    requires Valid(st) && Step(st, op, now, base, st')
    ensures Assigns(Edited(st, op, now, base), st')
    ensures op.Assign? || Fairly(Edited(st, op, now, base), st', now)
  {
    var m := Edited(st, op, now, base);
    EditedDistinct(st, op, now, base);
    match op {
      case Schedule => PeersStepAssigns(m, Peers(st.peerPieces), now, st');
      case PeerStop(peer) => StopAssigns(st, peer, now, st');
      case Possess(peer, p) =>
        if ValidPossession(p, st.numPieces) {
          SchedulePeerAssigns(m, peer, now);
        }
      case ResponseError(peer, piece) =>
        if (peer, piece) in st.assignments {
          ErrorAssigns(m, peer, piece, now, st');
        }
      case Verified(piece) =>
        if piece in st.schedule {
          PeersStepAssigns(m, PeersOf(st.assignments, piece), now, st');
        }
      case RemoveExpired => PeersStepAssigns(m, Peers(Expired(st, now)), now, st');
      case _ =>
    }
  }

  // ---- What is scheduled ----

  lemma StepSchedule(st: State, op: Op, now: nat, base: nat, st': State, x: Piece)
    requires Valid(st) && Step(st, op, now, base, st')
    ensures st'.numPieces == st.numPieces
    ensures x in st'.schedule <==> x in st.schedule && op != Verified(x)
  {
    StepAssigns(st, op, now, base, st');
    match op {
      case PeerStop(peer) => ScheduleMember(st.(peerPieces := WithoutPeer(st.peerPieces, peer)), x);
      case Possess(peer, p) =>
        if ValidPossession(p, st.numPieces) {
          ScheduleMember(st.(peerPieces := Owned(st.peerPieces, peer, p, st.numPieces)), x);
        }
      case Verified(piece) =>
        if piece in st.schedule {
          UnscheduledMember(st.schedule, piece, x);
        }
      case _ =>
    }
  }

  ghost predicate Never(events: seq<Event>, n: nat, op: Op)
    requires n <= |events|
  {
    forall k :: 0 <= k < n ==> events[k].op != op
  }

  lemma NeverYet(events: seq<Event>, n: nat, op: Op)
    requires 0 < n <= |events|
    ensures Never(events, n, op) <==> Never(events, n - 1, op) && events[n - 1].op != op
  {
  }

  lemma RunSchedule(have: seq<bool>, maxA: nat, maxR: nat, base: nat, events: seq<Event>, sts: seq<State>, k: nat,
                    x: Piece)
    requires Run(have, maxA, maxR, base, events, sts) && k < |events|
    ensures sts[k + 1].numPieces == sts[k].numPieces
    ensures x in sts[k + 1].schedule <==> x in sts[k].schedule && events[k].op != Verified(x)
  {
    RunStep(have, maxA, maxR, base, events, sts, k);
    StepSchedule(sts[k], events[k].op, events[k].now, base, sts[k + 1], x);
  }

  /** A piece is scheduled exactly when we lacked it at the start and it has not been
      verified since. */
  lemma {:induction false} ScheduledExactly(have: seq<bool>, maxA: nat, maxR: nat, base: nat,
                                            events: seq<Event>, sts: seq<State>, n: nat, x: Piece)
    requires Run(have, maxA, maxR, base, events, sts) && n < |sts|
    ensures sts[n].numPieces == |have|
    ensures x in sts[n].schedule <==> x < |have| && !have[x] && Never(events, n, Verified(x))
  {
    if n == 0 {
      NewStateValid(have, maxA, maxR);
    } else {
      ScheduledExactly(have, maxA, maxR, base, events, sts, n - 1, x);
      RunSchedule(have, maxA, maxR, base, events, sts, n - 1, x);
      ScheduledNext(have, events, sts, n - 1, x);
    }
  }

  lemma ScheduledNext(have: seq<bool>, events: seq<Event>, sts: seq<State>, k: nat, x: Piece)
    requires k < |events| && |sts| == |events| + 1
    requires x in sts[k].schedule <==> x < |have| && !have[x] && Never(events, k, Verified(x))
    requires x in sts[k + 1].schedule <==> x in sts[k].schedule && events[k].op != Verified(x)
    ensures x in sts[k + 1].schedule <==> x < |have| && !have[x] && Never(events, k + 1, Verified(x))
  {
    NeverYet(events, k + 1, Verified(x));
  }

  // ---- Who owns what ----

  /** The announcement says that the peer has the piece. */
  predicate Gives(op: Op, peer: Peer, x: Piece, numPieces: nat) {
    && op.Possess? && op.peer == peer && x < numPieces
    && match op.possession
       case Bitfield(bits) => numPieces <= |bits| && bits[x] && forall k :: numPieces <= k < |bits| ==> !bits[k]
       case Have(piece) => piece == x
       case HaveAll => true
       case HaveNone => false
  }

  /** The peer is gone, or it announces anew what it has and the piece is not among it. */
  predicate Takes(op: Op, peer: Peer, x: Piece, numPieces: nat) {
    || op == PeerStop(peer)
    || op == Possess(peer, HaveNone)
    || (&& op.Possess? && op.peer == peer && op.possession.Bitfield?
        && var bits := op.possession.bits;
        && numPieces <= |bits| && (forall k :: numPieces <= k < |bits| ==> !bits[k])
        && (x >= numPieces || !bits[x]))
  }

  lemma EditedOwned(st: State, op: Op, now: nat, base: nat, peer: Peer, x: Piece)
    ensures (peer, x) in Edited(st, op, now, base).peerPieces <==>
            Gives(op, peer, x, st.numPieces) || ((peer, x) in st.peerPieces && !Takes(op, peer, x, st.numPieces))
  {
    if op.Possess? && ValidPossession(op.possession, st.numPieces) {
      assert (peer, x) in AllPieces(op.peer, st.numPieces) <==> peer == op.peer && x < st.numPieces;
    }
  }

  lemma StepOwned(st: State, op: Op, now: nat, base: nat, st': State, peer: Peer, x: Piece)
    requires Valid(st) && Step(st, op, now, base, st')
    ensures (peer, x) in st'.peerPieces <==>
            Gives(op, peer, x, st.numPieces) || ((peer, x) in st.peerPieces && !Takes(op, peer, x, st.numPieces))
  {
    StepAssigns(st, op, now, base, st');
    EditedOwned(st, op, now, base, peer, x);
  }

  /** The piece was given by event `i` and not taken since. */
  ghost predicate GivenAt(events: seq<Event>, n: nat, i: nat, peer: Peer, x: Piece, numPieces: nat)
    requires n <= |events|
  {
    && i < n && Gives(events[i].op, peer, x, numPieces)
    && forall j :: i < j < n ==> !Takes(events[j].op, peer, x, numPieces)
  }

  ghost predicate IsGiven(events: seq<Event>, n: nat, peer: Peer, x: Piece, numPieces: nat)
    requires n <= |events|
  {
    exists i: nat :: GivenAt(events, n, i, peer, x, numPieces)
  }

  lemma RunOwned(have: seq<bool>, maxA: nat, maxR: nat, base: nat, events: seq<Event>, sts: seq<State>, k: nat,
                 peer: Peer, x: Piece)
    requires Run(have, maxA, maxR, base, events, sts) && k < |events|
    ensures (peer, x) in sts[k + 1].peerPieces <==>
            || Gives(events[k].op, peer, x, |have|)
            || ((peer, x) in sts[k].peerPieces && !Takes(events[k].op, peer, x, |have|))
  {
    RunStep(have, maxA, maxR, base, events, sts, k);
    ScheduledExactly(have, maxA, maxR, base, events, sts, k, x);
    StepOwned(sts[k], events[k].op, events[k].now, base, sts[k + 1], peer, x);
  }

  /** A peer is known to own a piece exactly when it said so and neither left nor took it
      back since. */
  lemma {:induction false} OwnedExactly(have: seq<bool>, maxA: nat, maxR: nat, base: nat,
                                        events: seq<Event>, sts: seq<State>, n: nat, peer: Peer, x: Piece)
    requires Run(have, maxA, maxR, base, events, sts) && n < |sts|
    ensures (peer, x) in sts[n].peerPieces <==> IsGiven(events, n, peer, x, |have|)
  {
    if n > 0 {
      var k := n - 1;
      OwnedExactly(have, maxA, maxR, base, events, sts, k, peer, x);
      RunOwned(have, maxA, maxR, base, events, sts, k, peer, x);
      GivenStep(events, n, peer, x, |have|);
    }
  }

  lemma GivenStep(events: seq<Event>, n: nat, peer: Peer, x: Piece, numPieces: nat)
    requires 0 < n <= |events|
    ensures IsGiven(events, n, peer, x, numPieces) <==>
            || Gives(events[n - 1].op, peer, x, numPieces)
            || (IsGiven(events, n - 1, peer, x, numPieces) && !Takes(events[n - 1].op, peer, x, numPieces))
  {
    var k := n - 1;
    if Gives(events[k].op, peer, x, numPieces) {
      assert GivenAt(events, n, k, peer, x, numPieces);
    }
    if i: nat :| GivenAt(events, k, i, peer, x, numPieces) {
      if !Takes(events[k].op, peer, x, numPieces) {
        assert GivenAt(events, n, i, peer, x, numPieces);
      }
    }
    if i: nat :| GivenAt(events, n, i, peer, x, numPieces) {
      assert i < k ==> GivenAt(events, k, i, peer, x, numPieces);
    }
  }

  // ---- Whose assignments have grown ----

  /** The event ends the assignment of this pair. */
  predicate EndsPair(op: Op, e: (Peer, Piece)) {
    op == PeerStop(e.0) || op == Verified(e.1) || op == ResponseError(e.0, e.1)
  }

  lemma EditedAssignments(st: State, op: Op, now: nat, base: nat, e: (Peer, Piece))
    requires Valid(st)
    ensures e in Edited(st, op, now, base).assignments <==> e in st.assignments && !EndsPair(op, e)
  {
  }

  /** An assignment ends exactly with its peer, its piece or an error, after which the
      same pair may be assigned again only if there is no delay. */
  lemma StepEnds(st: State, op: Op, now: nat, base: nat, st': State, e: (Peer, Piece))
    requires Valid(st) && Step(st, op, now, base, st') && e in st.assignments
    ensures e !in st'.assignments ==> EndsPair(op, e)
    ensures EndsPair(op, e) && e in st'.assignments ==> op == ResponseError(e.0, e.1) && base == 0
  {
    var m := Edited(st, op, now, base);
    StepAssigns(st, op, now, base, st');
    EditedAssignments(st, op, now, base, e);
    StepOwned(st, op, now, base, st', e.0, e.1);
    StepSchedule(st, op, now, base, st', e.1);
    if op == ResponseError(e.0, e.1) && e in st'.assignments {
      var errors := if e in st.backoffs then st.backoffs[e].numErrors else 0;
      assert m.backoffs[e].deadline == now + Delay(base, errors);
      assert IsFair(m, e, now);
      NoDelay(base, errors);
    }
  }

  lemma NoDelay(base: nat, numErrors: nat)
    requires Delay(base, numErrors) == 0
    ensures base == 0
  {
    MulGrows(base, 1, Min(Pow2(numErrors), 0xFFFF_FFFF));
  }

  /** The event gives the peer a piece that it did not have, or that it has just failed
      to deliver. */
  ghost predicate Grows(st: State, op: Op, st': State, peer: Peer) {
    exists x: Piece :: (peer, x) in st'.assignments && ((peer, x) !in st.assignments || op == ResponseError(peer, x))
  }

  lemma StepUpdated(st: State, op: Op, now: nat, base: nat, st': State, peer: Peer)
    requires Valid(st) && Step(st, op, now, base, st')
    ensures peer in st'.updated <==> (peer in st.updated && !op.TakeUpdated?) || Grows(st, op, st', peer)
  {
    var m := Edited(st, op, now, base);
    StepAssigns(st, op, now, base, st');
    if Gains(m, st', peer) {
      var x: Piece :| (peer, x) in st'.assignments && (peer, x) !in m.assignments;
      EditedAssignments(st, op, now, base, (peer, x));
      if (peer, x) in st.assignments {
        StepEnds(st, op, now, base, st', (peer, x));
      }
    }
    if Grows(st, op, st', peer) {
      var x: Piece :|
        (peer, x) in st'.assignments && ((peer, x) !in st.assignments || op == ResponseError(peer, x));
      EditedAssignments(st, op, now, base, (peer, x));
    }
  }

  ghost predicate GrewAt(events: seq<Event>, sts: seq<State>, n: nat, i: nat, peer: Peer)
    requires n <= |events| && n < |sts|
  {
    && i < n && Grows(sts[i], events[i].op, sts[i + 1], peer)
    && forall j :: i < j < n ==> !events[j].op.TakeUpdated?
  }

  ghost predicate Grew(events: seq<Event>, sts: seq<State>, n: nat, peer: Peer)
    requires n <= |events| && n < |sts|
  {
    exists i: nat :: GrewAt(events, sts, n, i, peer)
  }

  lemma GrewStep(events: seq<Event>, sts: seq<State>, n: nat, peer: Peer)
    requires 0 < n <= |events| && n < |sts|
    ensures Grew(events, sts, n, peer) <==>
            || Grows(sts[n - 1], events[n - 1].op, sts[n], peer)
            || (Grew(events, sts, n - 1, peer) && !events[n - 1].op.TakeUpdated?)
  {
    var k := n - 1;
    if Grows(sts[k], events[k].op, sts[k + 1], peer) {
      assert GrewAt(events, sts, n, k, peer);
    }
    if i: nat :| GrewAt(events, sts, k, i, peer) {
      if !events[k].op.TakeUpdated? {
        assert GrewAt(events, sts, n, i, peer);
      }
    }
    if i: nat :| GrewAt(events, sts, n, i, peer) {
      assert i < k ==> GrewAt(events, sts, k, i, peer);
    }
  }

  lemma RunUpdated(have: seq<bool>, maxA: nat, maxR: nat, base: nat, events: seq<Event>, sts: seq<State>, k: nat,
                   peer: Peer)
    requires Run(have, maxA, maxR, base, events, sts) && k < |events|
    ensures peer in sts[k + 1].updated <==>
            (peer in sts[k].updated && !events[k].op.TakeUpdated?) || Grows(sts[k], events[k].op, sts[k + 1], peer)
  {
    RunStep(have, maxA, maxR, base, events, sts, k);
    StepUpdated(sts[k], events[k].op, events[k].now, base, sts[k + 1], peer);
  }

  /** A peer is marked exactly when it was given a piece since the marks were last
      taken. */
  lemma {:induction false} UpdatedExactly(have: seq<bool>, maxA: nat, maxR: nat, base: nat,
                                          events: seq<Event>, sts: seq<State>, n: nat, peer: Peer)
    requires Run(have, maxA, maxR, base, events, sts) && n < |sts|
    ensures peer in sts[n].updated <==> Grew(events, sts, n, peer)
  {
    if n > 0 {
      UpdatedExactly(have, maxA, maxR, base, events, sts, n - 1, peer);
      RunUpdated(have, maxA, maxR, base, events, sts, n - 1, peer);
      UpdatedNext(events, sts, n - 1, peer);
    }
  }

  lemma UpdatedNext(events: seq<Event>, sts: seq<State>, k: nat, peer: Peer)
    requires k < |events| && |sts| == |events| + 1 && (peer in sts[k].updated <==> Grew(events, sts, k, peer))
    requires peer in sts[k + 1].updated <==>
             (peer in sts[k].updated && !events[k].op.TakeUpdated?) || Grows(sts[k], events[k].op, sts[k + 1], peer)
    ensures peer in sts[k + 1].updated <==> Grew(events, sts, k + 1, peer)
  {
    GrewStep(events, sts, k + 1, peer);
  }

  // ---- Who backs off ----

  /** How often in a row a pair has failed, and when it last did. */
  datatype Trouble = Trouble(errors: nat, last: nat)

  /** The end of the backoff of a pair that has failed. */
  function BackoffEnd(t: Trouble, base: nat): nat
    requires t.errors > 0
  {
    t.last + Min(base * Min(Pow2(t.errors - 1), 0xFFFF_FFFF), 3600_000_000_000)
  }

  ghost function After(t: Trouble, st: State, event: Event, base: nat, e: (Peer, Piece)): Trouble {
    if event.op == ResponseError(e.0, e.1) && e in st.assignments then Trouble(t.errors + 1, event.now)
    else if event.op == PeerStop(e.0) || event.op == Verified(e.1) then Trouble(0, 0)
    else if event.op.RemoveExpired? && t.errors > 0 && BackoffEnd(t, base) <= event.now then Trouble(0, 0)
    else t
  }

  /** The trouble with a pair: each failed assignment adds to it, and it is forgotten with
      the peer, with the piece, or when expired backoffs are removed. */
  ghost function TroubleAt(events: seq<Event>, sts: seq<State>, base: nat, n: nat, e: (Peer, Piece)): Trouble
    requires n <= |events| && n < |sts|
  {
    if n == 0 then Trouble(0, 0)
    else After(TroubleAt(events, sts, base, n - 1, e), sts[n - 1], events[n - 1], base, e)
  }

  /** What the backoffs record of a pair. */
  ghost predicate Records(st: State, base: nat, e: (Peer, Piece), t: Trouble) {
    && (e in st.backoffs <==> t.errors > 0)
    && (e in st.backoffs ==> st.backoffs[e] == Backoff(BackoffEnd(t, base), t.errors) && e.1 in st.schedule)
  }

  /** Only the edit of an event touches the backoffs. */
  lemma StepBackoffs(st: State, op: Op, now: nat, base: nat, st': State, x: Piece)
    requires Valid(st) && Step(st, op, now, base, st')
    ensures st'.backoffs == Edited(st, op, now, base).backoffs
    ensures x in st'.schedule <==> x in st.schedule && op != Verified(x)
  {
    StepAssigns(st, op, now, base, st');
    StepSchedule(st, op, now, base, st', x);
  }

  lemma EditedRecords(st: State, event: Event, base: nat, e: (Peer, Piece), t: Trouble)
    requires Valid(st) && Records(st, base, e, t)
    ensures var t', m := After(t, st, event, base, e), Edited(st, event.op, event.now, base);
            && (e in m.backoffs <==> t'.errors > 0)
            && (e in m.backoffs ==> m.backoffs[e] == Backoff(BackoffEnd(t', base), t'.errors))
            && (e in m.backoffs ==> e.1 in st.schedule && event.op != Verified(e.1))
  {
    match event.op {
      case ResponseError(peer, piece) =>
        if e == (peer, piece) && e in st.assignments {
          var b := if e in st.backoffs then st.backoffs[e] else Backoff(event.now, 0);
          assert b.numErrors == t.errors;
        }
      case _ =>
    }
  }

  lemma StepRecords(st: State, event: Event, base: nat, st': State, e: (Peer, Piece), t: Trouble)
    requires Valid(st) && Step(st, event.op, event.now, base, st') && Records(st, base, e, t)
    ensures Records(st', base, e, After(t, st, event, base, e))
  {
    EditedRecords(st, event, base, e, t);
    StepBackoffs(st, event.op, event.now, base, st', e.1);
  }

  /** A backoff is pending, or has expired and not been removed, exactly when the pair has
      failed and that is not forgotten; it ends the doubled delay after the last failure. */
  lemma {:induction false} BackoffsExactly(have: seq<bool>, maxA: nat, maxR: nat, base: nat,
                                           events: seq<Event>, sts: seq<State>, n: nat, e: (Peer, Piece))
    requires Run(have, maxA, maxR, base, events, sts) && n < |sts|
    ensures Records(sts[n], base, e, TroubleAt(events, sts, base, n, e))
  {
    if n > 0 {
      var k := n - 1;
      BackoffsExactly(have, maxA, maxR, base, events, sts, k, e);
      RunStep(have, maxA, maxR, base, events, sts, k);
      StepRecords(sts[k], events[k], base, sts[n], e, TroubleAt(events, sts, base, k, e));
    }
  }
}
