/**
  Whether peers own the pieces assigned to them
  (rust/bittorrent/transceiver/src/schedule.rs).  The scheduler deliberately keeps
  assignments when ownership is lost, so this holds of some runs only.
 */
module ScheduleOwnership {
  import opened Common
  import opened Schedules
  import opened ScheduleEvents
  import opened ScheduleRuns

  ghost predicate OwnsAll(st: State) {
    st.assignments <= st.peerPieces
  }

  /** The event assigns a piece to a peer that does not own it, or announces that a peer
      does not own a piece assigned to it. */
  ghost predicate Loses(st: State, op: Op) {
    match op
    case Assign(peer, piece) => piece in st.schedule && (peer, piece) !in st.peerPieces
    case Possess(peer, p) =>
      && ValidPossession(p, st.numPieces)
      && exists x :: x in PiecesOf(st.assignments, peer) && (peer, x) !in Owned(st.peerPieces, peer, p, st.numPieces)
    case _ => false
  }

  /** Assignments grow by owned pairs only. */
  ghost predicate AddsOwned(st: State, st': State) {
    && st'.peerPieces == st.peerPieces && st.assignments <= st'.assignments
    && forall e :: e in st'.assignments ==> e in st.assignments || e in st.peerPieces
  }

  lemma SchedulePeerAddsOwned(st: State, peer: Peer, now: nat)
    ensures AddsOwned(st, SchedulePeer(st, peer, now))
  {
    var chosen := ChosenPieces(st, peer, now);
    forall x | x in chosen ensures (peer, x) in st.peerPieces {
      EligibleMember(st, peer, st.schedule, now, x);
    }
  }

  lemma {:induction false} SchedulePeersAddOwned(st: State, order: seq<Peer>, now: nat)
    ensures AddsOwned(st, SchedulePeersInOrder(st, order, now))
    decreases |order|
  {
    if order != [] {
      SchedulePeerAddsOwned(st, order[0], now);
      SchedulePeersAddOwned(SchedulePeer(st, order[0], now), order[1..], now);
    }
  }

  lemma SchedulePeersStepAddsOwned(st: State, peers: set<Peer>, now: nat, st': State)
    requires SchedulePeersStep(st, peers, now, st')
    ensures AddsOwned(st, st')
  {
    var order: seq<Peer> :| PeerOrder(order, peers, st.peerPieces) && st' == SchedulePeersInOrder(st, order, now);
    SchedulePeersAddOwned(st, order, now);
  }

  lemma SchedulePieceAddsOwned(st: State, piece: Piece, now: nat, st': State)
    requires SchedulePieceStep(st, piece, now, st')
    ensures AddsOwned(st, st')
  {
    var order: seq<Peer> :|
      && Distinct(order) && PeerOrder(order, EligiblePeers(st, piece, now), st.peerPieces)
      && st' == AssignPiece(st, piece, order);
    forall peer | peer in order ensures (peer, piece) in st.peerPieces {
      assert peer in Elems(order);
    }
  }

  lemma {:induction false} SchedulePiecesAddOwned(st: State, pieces: seq<Piece>, now: nat, st': State)
    requires SchedulePiecesStep(st, pieces, now, st')
    ensures AddsOwned(st, st')
    decreases |pieces|
  {
    if pieces != [] {
      var n := |pieces| - 1;
      var m := LastPiece(st, pieces, now, st');
      SchedulePiecesAddOwned(st, pieces[..n], now, m);
      SchedulePieceAddsOwned(m, pieces[n], now, st');
    }
  }

  lemma PossessExactly(st: State, peer: Peer, p: Possession, now: nat)
    requires OwnsAll(st) && ValidPossession(p, st.numPieces)
    ensures OwnsAll(SchedulePeer(Possessed(st, peer, p), peer, now)) <==> !Loses(st, Possess(peer, p))
  {
    var m := Possessed(st, peer, p);
    var st' := SchedulePeer(m, peer, now);
    SchedulePeerAddsOwned(m, peer, now);
    if Loses(st, Possess(peer, p)) {
      var x :| x in PiecesOf(st.assignments, peer) && (peer, x) !in m.peerPieces;
      assert (peer, x) in st'.assignments;
    } else {
      forall e | e in st.assignments ensures e in m.peerPieces {
        if e.0 == peer {
          assert e.1 in PiecesOf(st.assignments, peer);
        }
      }
    }
  }

  /** While peers own what is assigned to them, an event keeps this exactly when it
      takes no assigned piece from a peer and gives no unowned one to it. */
  lemma OwnsExactly(st: State, op: Op, now: nat, base: nat, st': State)
    requires OwnsAll(st) && Step(st, op, now, base, st')
    ensures OwnsAll(st') <==> !Loses(st, op)
  {
    match op {
      case Schedule => SchedulePeersStepAddsOwned(st, Peers(st.peerPieces), now, st');
      case PeerStart(_) =>
      case PeerStop(peer) =>
        var m := Stopped(st, peer);
        SchedulePiecesAddOwned(m, Only(m.schedule, PiecesOf(st.assignments, peer)), now, st');
      case Possess(peer, p) =>
        if ValidPossession(p, st.numPieces) {
          PossessExactly(st, peer, p, now);
        }
      case ResponseError(peer, piece) =>
        if (peer, piece) in st.assignments {
          var m := Errored(st, peer, piece, now, base);
          SchedulePeerAddsOwned(m, peer, now);
          SchedulePieceAddsOwned(SchedulePeer(m, peer, now), piece, now, st');
        }
      case Verified(piece) =>
        if piece in st.schedule {
          SchedulePeersStepAddsOwned(Finished(st, piece), PeersOf(st.assignments, piece), now, st');
        }
      case Assign(peer, piece) =>
        assert Loses(st, op) ==> (peer, piece) in st'.assignments;
      case RemoveExpired =>
        SchedulePeersStepAddsOwned(Purged(st, now), Peers(Expired(st, now)), now, st');
      case TakeUpdated =>
      case SetMaxAssignments(_) =>
      case SetMaxReplicates(_) =>
    }
  }

  ghost predicate AlwaysOwned(sts: seq<State>, n: nat)
    requires n < |sts|
  {
    forall k :: 0 <= k <= n ==> OwnsAll(sts[k])
  }

  ghost predicate NoneLoses(events: seq<Event>, sts: seq<State>, n: nat)
    requires n <= |events| && n <= |sts|
  {
    forall k :: 0 <= k < n ==> !Loses(sts[k], events[k].op)
  }

  /** All assigned pieces have been owned all along exactly when there was no such event. */
  lemma {:induction false} RunOwns(have: seq<bool>, maxA: nat, maxR: nat, base: nat,
                                   events: seq<Event>, sts: seq<State>, n: nat)
    requires Run(have, maxA, maxR, base, events, sts) && n < |sts|
    ensures AlwaysOwned(sts, n) <==> NoneLoses(events, sts, n)
  {
    if n > 0 {
      RunOwns(have, maxA, maxR, base, events, sts, n - 1);
      RunStep(have, maxA, maxR, base, events, sts, n - 1);
      OneMoreEvent(events, sts, n);
      if AlwaysOwned(sts, n - 1) {
        OwnsExactly(sts[n - 1], events[n - 1].op, events[n - 1].now, base, sts[n]);
      }
    }
  }

  lemma OneMoreEvent(events: seq<Event>, sts: seq<State>, n: nat)
    requires |sts| == |events| + 1 && 0 < n < |sts|
    ensures AlwaysOwned(sts, n) <==> AlwaysOwned(sts, n - 1) && OwnsAll(sts[n])
    ensures NoneLoses(events, sts, n) <==> NoneLoses(events, sts, n - 1) && !Loses(sts[n - 1], events[n - 1].op)
    ensures AlwaysOwned(sts, n - 1) ==> OwnsAll(sts[n - 1])
  {
  }

  /** An explicit assignment to a peer that has announced nothing. */
  lemma NotAlwaysOwned(now: nat, base: nat, st': State)
    requires Step(NewState([false], 1, 1), Assign(0, 0), now, base, st')
    ensures OwnsAll(NewState([false], 1, 1)) && !OwnsAll(st')
  {
    var st := NewState([false], 1, 1);
    assert Lacking([false], 1) == [] && Lacking([false], 0) == [0];
    OwnsExactly(st, Assign(0, 0), now, base, st');
  }
}
