/**
  The piece scheduler itself (rust/bittorrent/transceiver/src/schedule.rs): a
  mutable object whose callbacks repair the assignment locally.
 */
module Scheduler {
  import opened Common
  import opened Sorting
  import opened Schedules
  import opened ScheduleEvents
  import opened ScheduleRuns

  /** Where a piece is in the schedule. */
  function Position(schedule: seq<Piece>, piece: Piece): (r: Option<nat>)
    ensures r.Some? ==> r.value < |schedule| && schedule[r.value] == piece
    ensures r.None? <==> piece !in schedule
  {
    if schedule == [] then None
    else if schedule[0] == piece then Some(0)
    else match Position(schedule[1..], piece)
      case None => None
      case Some(i) => Some(i + 1)
  }

  lemma {:induction false} EligibleAppend(st: State, peer: Peer, pieces: seq<Piece>, x: Piece, now: nat)
    ensures EligiblePieces(st, peer, pieces + [x], now) ==
              EligiblePieces(st, peer, pieces, now) + if MayAssign(st, peer, x, now) then [x] else []
  {
    if pieces == [] {
      assert pieces + [x] == [x];
    } else {
      var both := pieces + [x];
      assert both[1..] == pieces[1..] + [x] && both[0] == pieces[0];
      EligibleAppend(st, peer, pieces[1..], x, now);
      var head := if MayAssign(st, peer, pieces[0], now) then [pieces[0]] else [];
      assert EligiblePieces(st, peer, both, now) == head + EligiblePieces(st, peer, pieces[1..] + [x], now);
    }
  }

  lemma {:induction false} EligiblePrefix(st: State, peer: Peer, a: seq<Piece>, b: seq<Piece>, now: nat)
    ensures EligiblePieces(st, peer, a, now) <= EligiblePieces(st, peer, a + b, now)
  {
    if a == [] {
      assert a + b == b;
    } else {
      EligiblePrefix(st, peer, a[1..], b, now);
      assert (a + b)[1..] == a[1..] + b && (a + b)[0] == a[0];
    }
  }

  lemma {:induction false} OnlyAppend(pieces: seq<Piece>, x: Piece, keep: set<Piece>)
    ensures Only(pieces + [x], keep) == Only(pieces, keep) + if x in keep then [x] else []
  {
    if pieces == [] {
      assert pieces + [x] == [x];
    } else {
      var both := pieces + [x];
      assert both[1..] == pieces[1..] + [x] && both[0] == pieces[0];
      OnlyAppend(pieces[1..], x, keep);
      var head := if pieces[0] in keep then [pieces[0]] else [];
      assert Only(both, keep) == head + Only(pieces[1..] + [x], keep);
    }
  }

  lemma EdgesAppend(peer: Peer, pieces: seq<Piece>, x: Piece)
    ensures Edges(peer, pieces + [x]) == Edges(peer, pieces) + {(peer, x)}
  {
  }

  lemma EdgesToAppend(peers: seq<Peer>, x: Peer, piece: Piece)
    ensures EdgesTo(peers + [x], piece) == EdgesTo(peers, piece) + {(x, piece)}
    ensures Elems(peers + [x]) == Elems(peers) + {x}
  {
  }

  /** The elements of a hash set, in the order it happens to yield them. */
  method ListOf(s: set<nat>) returns (listed: seq<nat>)
    ensures Distinct(listed) && Elems(listed) == s
  {
    listed := [];
    var rest := s;
    while rest != {}
      invariant rest <= s && Distinct(listed) && Elems(listed) == s - rest
      decreases rest
    {
      var x :| x in rest;
      assert x !in Elems(listed);
      assert Elems(listed + [x]) == Elems(listed) + {x};
      listed := listed + [x];
      rest := rest - {x};
    }
  }

  class Scheduler {
    const numPieces: nat
    const backoffBase: nat
    var peerPieces: Graph
    var schedule: seq<Piece>
    var assignments: Graph
    var maxAssignments: nat
    var maxReplicates: nat
    var updated: set<Peer>
    var backoffs: map<(Peer, Piece), Backoff>

    function View(): State
      reads this
    {
      State(numPieces, peerPieces, schedule, assignments, maxAssignments, maxReplicates, updated, backoffs)
    }

    ghost predicate Ok()
      reads this
    {
      Valid(View())
    }

    constructor (have: seq<bool>, maxAssignments: nat, maxReplicates: nat, backoffBase: nat)
      ensures View() == NewState(have, maxAssignments, maxReplicates) && Ok()
      ensures forall x: Piece :: x in schedule <==> x < |have| && !have[x]
      ensures forall i, j :: 0 <= i < j < |schedule| ==> schedule[i] < schedule[j]
      ensures this.backoffBase == backoffBase
    {
      numPieces := |have|;
      this.backoffBase := backoffBase;
      peerPieces, assignments, updated, backoffs := {}, {}, {}, map[];
      this.maxAssignments, this.maxReplicates := maxAssignments, maxReplicates;
      var pieces: seq<Piece> := [];
      var i := |have|;
      while i > 0
        invariant 0 <= i <= |have| && pieces == Lacking(have, i)
      {
        i := i - 1;
        pieces := (if have[i] then [] else [i]) + pieces;
      }
      schedule := pieces;
      NewStateValid(have, maxAssignments, maxReplicates);
    }

    /** Peers by ascending ownership; equal ones in the order the hash set yields them. */
    method SortPeers(peers: set<Peer>) returns (order: seq<Peer>)
      ensures Distinct(order) && PeerOrder(order, peers, peerPieces)
    {
      var listed := ListOf(peers);
      order := SortBy(listed, OwnershipKey(peerPieces));
      SortKeepsElems(listed, OwnershipKey(peerPieces));
    }

    /** The pieces assigned to a peer, in schedule order.  The source unwraps the
        position of each, so all of them must be scheduled. */
    method Assignments(peer: Peer) returns (r: Option<seq<Piece>>)
      requires Ok()
      ensures r == if PiecesOf(assignments, peer) == {} then None else Some(Only(schedule, PiecesOf(assignments, peer)))
    {
      var pieces := PiecesOf(assignments, peer);
      if pieces == {} {
        return None;
      }
      var listed := ListOf(pieces);
      forall x | x in listed ensures x in schedule {
        assert x in Elems(listed) && (peer, x) in assignments;
      }
      InScheduleOrder(schedule, listed, pieces);
      r := Some(SortBy(listed, PositionKey(schedule)));
    }

    /** The first assignable pieces of the schedule, up to the peer's limit. */
    method ChoosePieces(peer: Peer, now: nat) returns (pieces: seq<Piece>)
      ensures pieces == ChosenPieces(View(), peer, now)
    {
      var room := Minus(maxAssignments, |PiecesOf(assignments, peer)|);
      pieces := [];
      var i := 0;
      while i < |schedule| && |pieces| < room
        invariant 0 <= i <= |schedule| && |pieces| <= room
        invariant pieces == EligiblePieces(View(), peer, schedule[..i], now)
      {
        EligibleAppend(View(), peer, schedule[..i], schedule[i], now);
        assert schedule[..i + 1] == schedule[..i] + [schedule[i]];
        if MayAssign(View(), peer, schedule[i], now) {
          pieces := pieces + [schedule[i]];
        }
        i := i + 1;
      }
      EligiblePrefix(View(), peer, schedule[..i], schedule[i..], now);
      assert schedule == schedule[..i] + schedule[i..];
      assert i == |schedule| ==> schedule[..i] == schedule;
    }

    /** Assigns the pieces one by one; each insertion asserts that the pair is new. */
    method InsertPieces(peer: Peer, pieces: seq<Piece>)
      requires Distinct(pieces) && forall k :: 0 <= k < |pieces| ==> (peer, pieces[k]) !in assignments
      modifies this`assignments, this`updated
      ensures assignments == old(assignments) + Edges(peer, pieces)
      ensures updated == if pieces == [] then old(updated) else old(updated) + {peer}
    {
      for k := 0 to |pieces|
        invariant assignments == old(assignments) + Edges(peer, pieces[..k])
        invariant updated == if k == 0 then old(updated) else old(updated) + {peer}
      {
        assert (peer, pieces[k]) !in assignments;
        EdgesAppend(peer, pieces[..k], pieces[k]);
        assert pieces[..k + 1] == pieces[..k] + [pieces[k]];
        assignments := assignments + {(peer, pieces[k])};
        updated := updated + {peer};
      }
      assert pieces[..|pieces|] == pieces;
    }

    /** Assigns the piece to the peers one by one, asserting the same. */
    method InsertPeers(peers: seq<Peer>, piece: Piece)
      requires Distinct(peers) && forall k :: 0 <= k < |peers| ==> (peers[k], piece) !in assignments
      modifies this`assignments, this`updated
      ensures assignments == old(assignments) + EdgesTo(peers, piece)
      ensures updated == old(updated) + Elems(peers)
    {
      for k := 0 to |peers|
        invariant assignments == old(assignments) + EdgesTo(peers[..k], piece)
        invariant updated == old(updated) + Elems(peers[..k])
      {
        assert (peers[k], piece) !in assignments;
        EdgesToAppend(peers[..k], peers[k], piece);
        assert peers[..k + 1] == peers[..k] + [peers[k]];
        assignments := assignments + {(peers[k], piece)};
        updated := updated + {peers[k]};
      }
      assert peers[..|peers|] == peers;
    }

    method SchedulePeer(peer: Peer, now: nat)
      requires Distinct(schedule)
      modifies this`assignments, this`updated
      ensures View() == Schedules.SchedulePeer(old(View()), peer, now)
    {
      var pieces := ChoosePieces(peer, now);
      ChosenPiecesProperties(View(), peer, now);
      InsertPieces(peer, pieces);
    }

    // One round of the loop below.
    method ScheduleNextPeer(ghost st: State, order: seq<Peer>, k: nat, now: nat)
      requires Distinct(schedule) && k < |order| && View() == SchedulePeersInOrder(st, order[..k], now)
      modifies this`assignments, this`updated
      ensures View() == SchedulePeersInOrder(st, order[..k + 1], now)
    {
      SchedulePeersAppend(st, order[..k], order[k], now);
      assert order[..k] + [order[k]] == order[..k + 1];
      SchedulePeer(order[k], now);
    }

    method SchedulePeers(peers: set<Peer>, now: nat)
      requires Distinct(schedule)
      modifies this`assignments, this`updated
      ensures SchedulePeersStep(old(View()), peers, now, View())
    {
      ghost var st := View();
      var order := SortPeers(peers);
      for k := 0 to |order|
        invariant View() == SchedulePeersInOrder(st, order[..k], now)
      {
        ScheduleNextPeer(st, order, k, now);
      }
      assert order[..|order|] == order;
    }

    method SchedulePiece(piece: Piece, now: nat)
      modifies this`assignments, this`updated
      ensures SchedulePieceStep(old(View()), piece, now, View())
    {
      ghost var st := View();
      var eligible := EligiblePeers(View(), piece, now);
      var order := SortPeers(eligible);
      var chosen := Take(order, Minus(maxReplicates, |PeersOf(assignments, piece)|));
      forall k | 0 <= k < |chosen| ensures (chosen[k], piece) !in assignments {
        assert order[k] in Elems(order);
      }
      InsertPeers(chosen, piece);
      assert View() == AssignPiece(st, piece, order);
    }

    /** The scheduled ones among the pieces, in schedule order. */
    method SortPieces(pieces: set<Piece>) returns (picked: seq<Piece>)
      ensures picked == Only(schedule, pieces)
    {
      picked := [];
      for i := 0 to |schedule|
        invariant picked == Only(schedule[..i], pieces)
      {
        OnlyAppend(schedule[..i], schedule[i], pieces);
        assert schedule[..i + 1] == schedule[..i] + [schedule[i]];
        if schedule[i] in pieces {
          picked := picked + [schedule[i]];
        }
      }
      assert schedule[..|schedule|] == schedule;
    }

    // One round of the loop below.
    method ScheduleNextPiece(ghost st: State, picked: seq<Piece>, k: nat, now: nat)
      requires k < |picked| && SchedulePiecesStep(st, picked[..k], now, View())
      modifies this`assignments, this`updated
      ensures SchedulePiecesStep(st, picked[..k + 1], now, View())
    {
      assert picked[..k + 1] == picked[..k] + [picked[k]];
      ghost var m := View();
      SchedulePiece(picked[k], now);
      NextPiece(st, picked[..k], picked[k], now, m, View());
    }

    /** Schedules the scheduled ones among the pieces, in schedule order. */
    method SchedulePieces(pieces: set<Piece>, now: nat)
      modifies this`assignments, this`updated
      ensures SchedulePiecesStep(old(View()), Only(old(schedule), pieces), now, View())
    {
      ghost var st := View();
      var picked := SortPieces(pieces);
      NoPieces(st, now);
      for k := 0 to |picked|
        invariant SchedulePiecesStep(st, picked[..k], now, View())
      {
        ScheduleNextPiece(st, picked, k, now);
      }
      assert picked[..|picked|] == picked;
    }

    /** Reschedules every peer. */
    method ScheduleAll(now: nat)
      requires Ok()
      modifies this`assignments, this`updated
      ensures Step(old(View()), Op.Schedule, now, backoffBase, View()) && Ok()
      ensures Maximal(View(), now)
    {
      ghost var st := View();
      SchedulePeers(Peers(peerPieces), now);
      ScheduleMaximal(st, now, View());
      StepValid(st, Op.Schedule, now, backoffBase, View());
    }

    method NotifyPeerStop(peer: Peer, now: nat)
      requires Ok()
      modifies this
      ensures Step(old(View()), PeerStop(peer), now, backoffBase, View()) && Ok()
    {
      ghost var st := View();
      var freed := PiecesOf(assignments, peer);
      peerPieces := WithoutPeer(peerPieces, peer);
      schedule := SortBy(schedule, RarityKey(peerPieces));
      assignments := WithoutPeer(assignments, peer);
      backoffs := map e | e in backoffs && e.0 != peer :: backoffs[e];
      assert View() == Stopped(st, peer);
      SchedulePieces(freed, now);
      StepValid(st, PeerStop(peer), now, backoffBase, View());
    }

    /** Refuses an impossible possession and changes nothing; otherwise records it
        and fills up the peer. */
    method NotifyPossession(peer: Peer, possession: Possession, now: nat) returns (accepted: bool)
      requires Ok()
      modifies this
      ensures Step(old(View()), Possess(peer, possession), now, backoffBase, View()) && Ok()
      ensures accepted == ValidPossession(possession, numPieces)
    {
      if !ValidPossession(possession, numPieces) {
        return false;
      }
      ghost var st := View();
      peerPieces := Owned(peerPieces, peer, possession, numPieces);
      schedule := SortBy(schedule, RarityKey(peerPieces));
      PossessedValid(st, peer, possession);
      assert View() == Possessed(st, peer, possession);
      SchedulePeer(peer, now);
      StepValid(st, Possess(peer, possession), now, backoffBase, View());
      return true;
    }

    method NotifyResponseError(peer: Peer, piece: Piece, now: nat)
      requires Ok()
      modifies this
      ensures Step(old(View()), ResponseError(peer, piece), now, backoffBase, View()) && Ok()
    {
      if (peer, piece) !in assignments {
        return;
      }
      ghost var st := View();
      assignments := assignments - {(peer, piece)};
      var b := if (peer, piece) in backoffs then backoffs[(peer, piece)] else Backoff(now, 0);
      backoffs := backoffs[(peer, piece) := Incremented(b, now, backoffBase)];
      assert View() == Errored(st, peer, piece, now, backoffBase);
      SchedulePeer(peer, now);
      SchedulePiece(piece, now);
      StepValid(st, ResponseError(peer, piece), now, backoffBase, View());
    }

    method NotifyVerified(piece: Piece, now: nat)
      requires Ok()
      modifies this
      ensures Step(old(View()), Verified(piece), now, backoffBase, View()) && Ok()
    {
      if Position(schedule, piece).None? {
        return;
      }
      ghost var st := View();
      var freed := PeersOf(assignments, piece);
      schedule := Unscheduled(schedule, piece);
      assignments := WithoutPiece(assignments, piece);
      backoffs := map e | e in backoffs && e.1 != piece :: backoffs[e];
      FinishedValid(st, piece);
      assert View() == Finished(st, piece);
      SchedulePeers(freed, now);
      StepValid(st, Verified(piece), now, backoffBase, View());
    }

    method AssignTo(peer: Peer, piece: Piece)
      requires Ok()
      modifies this`assignments, this`updated
      ensures forall now :: Step(old(View()), Assign(peer, piece), now, backoffBase, View())
      ensures Ok()
    {
      if Position(schedule, piece).Some? && (peer, piece) !in assignments {
        assignments := assignments + {(peer, piece)};
        updated := updated + {peer};
      }
    }

    method SetMaxAssignments(max: nat)
      requires Ok() && max > 0
      modifies this`maxAssignments
      ensures forall now :: Step(old(View()), Op.SetMaxAssignments(max), now, backoffBase, View())
      ensures Ok()
    {
      maxAssignments := max;
    }

    method SetMaxReplicates(max: nat)
      requires Ok() && max > 0
      modifies this`maxReplicates
      ensures forall now :: Step(old(View()), Op.SetMaxReplicates(max), now, backoffBase, View())
      ensures Ok()
    {
      maxReplicates := max;
    }

    method TakeUpdated() returns (r: set<Peer>)
      requires Ok()
      modifies this`updated
      ensures r == old(updated)
      ensures forall now :: Step(old(View()), Op.TakeUpdated, now, backoffBase, View())
      ensures Ok()
    {
      r := updated;
      updated := {};
    }

    method RemoveExpiredBackoffs(now: nat)
      requires Ok()
      modifies this
      ensures Step(old(View()), RemoveExpired, now, backoffBase, View()) && Ok()
      ensures AlmostMaximal(old(View()), now) ==> Maximal(View(), now)
    {
      ghost var st := View();
      var expired := Expired(View(), now);
      var kept := backoffs;
      var rest := expired;
      while rest != {}
        invariant rest <= expired && kept == backoffs - (expired - rest)
        decreases rest
      {
        var e :| e in rest;
        kept := kept - {e};
        rest := rest - {e};
      }
      backoffs := kept;
      assert View() == Purged(st, now);
      SchedulePeers(Peers(expired), now);
      StepValid(st, RemoveExpired, now, backoffBase, View());
      if AlmostMaximal(st, now) {
        RemoveExpiredMaximal(st, now, View());
      }
    }

    /** The nearest deadline that has not passed: until then a maximal assignment
        stays maximal. */
    method NextBackoff(now: nat) returns (r: Option<nat>)
      ensures r.None? ==> Deadlines(View(), now) == {}
      ensures r.Some? ==> r.value in Deadlines(View(), now)
      ensures r.Some? ==> forall d: nat :: d in Deadlines(View(), now) ==> r.value <= d
    {
      r := None;
      var rest := Deadlines(View(), now);
      while rest != {}
        invariant rest <= Deadlines(View(), now)
        invariant r.None? ==> rest == Deadlines(View(), now)
        invariant r.Some? ==> r.value in Deadlines(View(), now)
        invariant r.Some? ==> forall d: nat :: d in Deadlines(View(), now) && d !in rest ==> r.value <= d
        decreases rest
      {
        var d :| d in rest;
        if r.None? || d < r.value {
          r := Some(d);
        }
        rest := rest - {d};
      }
    }
  }

  // ---- Sorting helpers ----

  function PositionKey(schedule: seq<Piece>): Piece -> int {
    (piece: Piece) => match Position(schedule, piece) case None => |schedule| case Some(i) => i
  }

  lemma PositionIs(schedule: seq<Piece>, i: nat)
    requires Distinct(schedule) && i < |schedule|
    ensures PositionKey(schedule)(schedule[i]) == i
  {
  }

  lemma {:induction false} OnlyIsSorted(schedule: seq<Piece>, n: nat, keep: set<Piece>)
    requires Distinct(schedule) && n <= |schedule|
    ensures Sorted(Only(schedule[..n], keep), PositionKey(schedule))
    ensures DistinctKeys(Only(schedule[..n], keep), PositionKey(schedule))
    ensures forall k :: 0 <= k < |Only(schedule[..n], keep)| ==>
              PositionKey(schedule)(Only(schedule[..n], keep)[k]) < n
  {
    if n > 0 {
      OnlyIsSorted(schedule, n - 1, keep);
      assert schedule[..n] == schedule[..n - 1] + [schedule[n - 1]];
      OnlyAppend(schedule[..n - 1], schedule[n - 1], keep);
      PositionIs(schedule, n - 1);
    }
  }

  /** Sorting scheduled pieces by position is reading them off the schedule. */
  lemma InScheduleOrder(schedule: seq<Piece>, listed: seq<Piece>, pieces: set<Piece>)
    requires Distinct(schedule) && Distinct(listed) && Elems(listed) == pieces
    requires forall x :: x in listed ==> x in schedule
    ensures SortBy(listed, PositionKey(schedule)) == Only(schedule, pieces)
  {
    var a, b, key := Only(schedule, pieces), SortBy(listed, PositionKey(schedule)), PositionKey(schedule);
    assert schedule[..|schedule|] == schedule;
    OnlyIsSorted(schedule, |schedule|, pieces);
    SortBySorts(listed, key);
    SameMultiset(a, listed, key, pieces, schedule);
    SortedIsUnique(a, b, key);
  }

  lemma SameMultiset(a: seq<Piece>, listed: seq<Piece>, key: Piece -> int, pieces: set<Piece>, schedule: seq<Piece>)
    requires a == Only(schedule, pieces) && DistinctKeys(a, key)
    requires Distinct(listed) && Elems(listed) == pieces
    requires forall x :: x in listed ==> x in schedule
    ensures multiset(a) == multiset(listed)
  {
    forall x: Piece ensures multiset(a)[x] == multiset(listed)[x] {
      OnceOnly(a, x, key);
      var id := (y: nat) => y as int;
      assert forall i, j :: 0 <= i < j < |listed| ==> id(listed[i]) != id(listed[j]);
      OnceOnly(listed, x, id);
      OnlyMember(schedule, pieces, x);
      assert x in a <==> x in multiset(a);
      assert x in listed <==> x in multiset(listed);
      assert x in pieces <==> x in Elems(listed);
    }
  }
}
