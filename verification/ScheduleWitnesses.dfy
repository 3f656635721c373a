/** Runs of the piece scheduler in which a limit is exceeded, or an assignable pair is
    left (rust/bittorrent/transceiver/src/schedule.rs). */
module ScheduleWitnesses {
  import opened Common
  import opened Schedules
  import opened ScheduleEvents
  import opened ScheduleRuns

  const TWO_LACKING: seq<bool> := [false, false]

  lemma LackingTwo()
    ensures Lacking(TWO_LACKING, 0) == [0, 1]
  {
    assert Lacking(TWO_LACKING, 2) == [] && Lacking(TWO_LACKING, 1) == [1];
  }

  lemma EmptyCounts(peer: Peer, piece: Piece)
    ensures PiecesOf({}, peer) == {} && PeersOf({}, piece) == {}
  {
  }

  /** After both pieces were assigned explicitly to one peer. */
  lemma BothAssigned(maxA: nat, maxR: nat, base: nat, now: nat, events: seq<Event>, sts: seq<State>)
    requires Run(TWO_LACKING, maxA, maxR, base, events, sts)
    requires [Event(Assign(0, 0), now), Event(Assign(0, 1), now)] <= events
    ensures sts[1].assignments == {(0, 0)} && NumAssignments(sts[1], 0) == 1
    ensures sts[2].assignments == {(0, 0), (0, 1)} && NumAssignments(sts[2], 0) == 2
    ensures 1 in sts[1].schedule && sts[1].maxAssignments == maxA
    ensures sts[2].maxAssignments == maxA && sts[2].maxReplicates == maxR
  {
    LackingTwo();
    assert events[0].op == Assign(0, 0) && events[1].op == Assign(0, 1);
    RunStep(TWO_LACKING, maxA, maxR, base, events, sts, 0);
    RunStep(TWO_LACKING, maxA, maxR, base, events, sts, 1);
    EmptyCounts(0, 0);
    PiecesAfterAssign({}, 0, 0, 0);
    PiecesAfterAssign({(0, 0)}, 0, 1, 0);
    assert {} + {(0, 0)} == {(0, 0)} && {(0, 0)} + {(0, 1)} == {(0, 0), (0, 1)};
  }

  /** A second explicit assignment breaks a limit of one. */
  lemma AssignBreaksTheLimit(base: nat, now: nat, sts: seq<State>)
    requires Run(TWO_LACKING, 1, 1, base, [Event(Assign(0, 0), now), Event(Assign(0, 1), now)], sts)
    ensures WithinLimits(sts[0]) && !WithinLimits(sts[2])
  {
    NewWithinLimits(TWO_LACKING, 1, 1);
    BothAssigned(1, 1, base, now, [Event(Assign(0, 0), now), Event(Assign(0, 1), now)], sts);
  }

  /** A limit set below a count is broken at once. */
  lemma LoweringBreaksTheLimit(base: nat, now: nat, sts: seq<State>)
    requires Run(TWO_LACKING, 2, 1, base,
                 [Event(Assign(0, 0), now), Event(Assign(0, 1), now), Event(SetMaxAssignments(1), now)], sts)
    ensures NumAssignments(sts[2], 0) <= sts[2].maxAssignments && !WithinLimits(sts[3])
  {
    var events := [Event(Assign(0, 0), now), Event(Assign(0, 1), now), Event(SetMaxAssignments(1), now)];
    BothAssigned(2, 1, base, now, events, sts);
    RunStep(TWO_LACKING, 2, 1, base, events, sts, 2);
    assert NumAssignments(sts[3], 0) == 2;
  }

  /** A peer owns two pieces under a limit of one; raising the limit to two leaves the
      second one assignable, at every time and with no backoff to wait for. */
  lemma RaisingStrandsAPair(base: nat, now: nat, sts: seq<State>, later: nat)
    requires Run(TWO_LACKING, 1, 1, base, [Event(Possess(0, HaveAll), now), Event(SetMaxAssignments(2), now)], sts)
    ensures Maximal(sts[1], now) && !AlmostMaximal(sts[2], later)
  {
    var events := [Event(Possess(0, HaveAll), now), Event(SetMaxAssignments(2), now)];
    RunStep(TWO_LACKING, 1, 1, base, events, sts, 0);
    RunStep(TWO_LACKING, 1, 1, base, events, sts, 1);
    TwoSteps(base, now, sts[0], sts[1], sts[2], later);
  }

  lemma TwoSteps(base: nat, now: nat, st0: State, st1: State, st2: State, later: nat)
    requires st0 == NewState(TWO_LACKING, 1, 1) && Step(st0, Possess(0, HaveAll), now, base, st1)
    requires Step(st1, SetMaxAssignments(2), now, base, st2)
    ensures Maximal(st1, now) && !AlmostMaximal(st2, later)
  {
    NewStateValid(TWO_LACKING, 1, 1);
    MaximalIsKept(st0, Possess(0, HaveAll), now, base, st1);
    OwnsBoth(now, Possessed(st0, 0, HaveAll));
    StrandedPiece(st1, st2, later);
  }

  // The peer owns both pieces and has at most one of them.
  lemma OwnsBoth(now: nat, m: State)
    requires m == Possessed(NewState(TWO_LACKING, 1, 1), 0, HaveAll)
    ensures OneOfTwo(SchedulePeer(m, 0, now))
  {
    var start := NewState(TWO_LACKING, 1, 1);
    NewStateValid(TWO_LACKING, 1, 1);
    PossessedValid(start, 0, HaveAll);
    LackingTwo();
    forall x: Piece | x < 2 ensures x in m.schedule && (0, x) in m.peerPieces {
      ScheduleMember(start.(peerPieces := m.peerPieces), x);
      assert x in start.schedule;
    }
    AtMostOne(m, now);
  }

  ghost predicate OneOfTwo(st: State) {
    && (forall x: Piece :: x < 2 ==> x in st.schedule && (0, x) in st.peerPieces)
    && NumAssignments(st, 0) <= 1 && (forall e :: e in st.assignments ==> e.0 == 0)
    && st.backoffs == map[] && st.maxReplicates == 1
  }

  lemma AtMostOne(m: State, now: nat)
    requires Distinct(m.schedule) && m.assignments == {} && m.maxAssignments == 1
    ensures var st := SchedulePeer(m, 0, now);
            NumAssignments(st, 0) <= 1 && forall e :: e in st.assignments ==> e.0 == 0
  {
    ChosenPiecesProperties(m, 0, now);
    EmptyCounts(0, 0);
  }

  lemma StrandedPiece(st: State, st': State, now: nat)
    requires st' == st.(maxAssignments := 2) && OneOfTwo(st)
    ensures !AlmostMaximal(st', now)
  {
    var x := UnassignedPiece(st.assignments);
    assert PeersOf(st.assignments, x) == {};
    assert Assignable(st', 0, x, now);
  }

  lemma UnassignedPiece(g: Graph) returns (x: Piece)
    requires |PiecesOf(g, 0)| <= 1
    ensures x < 2 && (0, x) !in g
  {
    x := if (0, 0) in g then 1 else 0;
    var both: set<Piece> := {0, 1};
    assert |both| == 2;
    assert (0, 0) in g && (0, 1) in g ==> both <= PiecesOf(g, 0);
    if both <= PiecesOf(g, 0) {
      SubsetCard(both, PiecesOf(g, 0));
    }
  }
}
