/**
  The queue of a piece (rust/bittorrent/transceiver/src/queue.rs): its progress and
  the bytes credited to each peer.
 */
module Queues {
  import opened Common
  import opened Dimensions
  import opened Progresses

  type Endpoint = nat

  /** What happens to a queue: a block of the piece arrives, or a peer is forgotten. */
  datatype Event = Received(peer: Endpoint, block: BlockDesc) | Removed(peer: Endpoint)

  datatype State = State(missing: seq<Range>, credits: map<Endpoint, nat>)

  function Credit(credits: map<Endpoint, nat>, peer: Endpoint): nat {
    if peer in credits then credits[peer] else 0
  }

  function Credited(credits: map<Endpoint, nat>, peer: Endpoint, n: nat): map<Endpoint, nat> {
    if n > 0 then credits[peer := Credit(credits, peer) + n] else credits
  }

  ghost function Step(s: State, e: Event): State {
    match e
    case Received(peer, block) =>
      State(Hollowed(s.missing, BlockRange(block)), Credited(s.credits, peer, |Wanted(s.missing, block)|))
    case Removed(peer) => State(s.missing, s.credits - {peer})
  }

  // The bytes of a block that were still missing.
  ghost function Wanted(missing: seq<Range>, block: BlockDesc): set<nat> {
    Bytes(missing) * Span(BlockRange(block))
  }

  ghost function Run(size: nat, events: seq<Event>): State {
    if events == [] then State([Range(0, size)], map[])
    else Step(Run(size, events[..|events| - 1]), events[|events| - 1])
  }

  lemma RunSnoc(size: nat, events: seq<Event>, e: Event)
    ensures Run(size, events + [e]) == Step(Run(size, events), e)
  {
    assert (events + [e])[..|events|] == events;
  }

  // ---- What the events say, without reference to any state ----

  predicate Delivers(e: Event, x: nat) {
    e.Received? && e.block.start.offset <= x < e.block.start.offset + e.block.size
  }

  ghost predicate Covered(events: seq<Event>, x: nat) {
    exists i :: 0 <= i < |events| && Delivers(events[i], x)
  }

  /** `peer` was the first to deliver `x`, and has not been forgotten since. */
  ghost predicate EarnsAt(events: seq<Event>, peer: Endpoint, x: nat, i: nat) {
    && i < |events| && Delivers(events[i], x) && events[i].peer == peer
    && (forall j :: 0 <= j < i ==> !Delivers(events[j], x))
    && (forall k :: i < k < |events| ==> events[k] != Removed(peer))
  }

  ghost predicate Earns(events: seq<Event>, peer: Endpoint, x: nat) {
    exists i: nat :: EarnsAt(events, peer, x, i)
  }

  ghost function Earned(size: nat, events: seq<Event>, peer: Endpoint): set<nat> {
    set x: nat | x < size && Earns(events, peer, x)
  }

  lemma CoveredStep(events: seq<Event>, e: Event, x: nat)
    ensures Covered(events + [e], x) <==> Covered(events, x) || Delivers(e, x)
  {
    var all := events + [e];
    if Covered(events, x) {
      var i :| 0 <= i < |events| && Delivers(events[i], x);
      assert Delivers(all[i], x);
    }
    if Delivers(e, x) {
      assert Delivers(all[|events|], x);
    }
    if i :| 0 <= i < |all| && Delivers(all[i], x) {
      assert i < |events| ==> Delivers(events[i], x);
    }
  }

  lemma EarnsStep(events: seq<Event>, e: Event, peer: Endpoint, x: nat)
    ensures Earns(events + [e], peer, x) <==>
            if e.Removed? then Earns(events, peer, x) && e.peer != peer
            else Earns(events, peer, x) || (e.peer == peer && Delivers(e, x) && !Covered(events, x))
  {
    var all := events + [e];
    if Earns(events, peer, x) && e != Removed(peer) {
      var i: nat :| EarnsAt(events, peer, x, i);
      assert EarnsAt(all, peer, x, i);
    }
    if e.Received? && e.peer == peer && Delivers(e, x) && !Covered(events, x) {
      assert EarnsAt(all, peer, x, |events|);
    }
    if i: nat :| EarnsAt(all, peer, x, i) {
      EarnsBefore(events, e, peer, x, i);
    }
  }

  lemma EarnsBefore(events: seq<Event>, e: Event, peer: Endpoint, x: nat, i: nat)
    requires EarnsAt(events + [e], peer, x, i)
    ensures i < |events| ==> EarnsAt(events, peer, x, i) && e != Removed(peer)
    ensures i >= |events| ==> e.peer == peer && Delivers(e, x) && !Covered(events, x)
  {
    var all := events + [e];
    assert all[|events|] == e;
    assert forall j :: 0 <= j < |events| ==> events[j] == all[j];
  }

  // ---- Every run ----

  ghost predicate MissingIs(size: nat, events: seq<Event>, missing: seq<Range>) {
    && Canonical(missing)
    && forall x: nat :: x in Bytes(missing) <==> x < size && !Covered(events, x)
  }

  lemma FreshIs(size: nat)
    requires size > 0
    ensures MissingIs(size, [], [Range(0, size)])
  {
    var r := Range(0, size);
    assert [r][1..] == [];
    forall x: nat ensures x in Span(r) <==> x < size {
      assert Within(r, x) <==> x < size;
    }
  }

  /** After any events, what is missing is exactly the piece without the union of the
      blocks, as a sorted list of non-empty ranges with gaps between them. */
  lemma {:induction false} RunMissing(size: nat, events: seq<Event>)
    requires size > 0
    ensures MissingIs(size, events, Run(size, events).missing)
  {
    if events == [] {
      FreshIs(size);
    } else {
      var before, e := events[..|events| - 1], events[|events| - 1];
      RunMissing(size, before);
      assert events == before + [e];
      var missing := Run(size, before).missing;
      if e.Received? {
        HollowedSubtracts(missing, BlockRange(e.block));
      }
      forall x: nat ensures x in Bytes(Run(size, events).missing) <==> x < size && !Covered(events, x) {
        CoveredStep(before, e, x);
      }
    }
  }

  lemma EarnedIsCovered(events: seq<Event>, peer: Endpoint, x: nat)
    requires Earns(events, peer, x)
    ensures Covered(events, x)
  {
    var i: nat :| EarnsAt(events, peer, x, i);
    assert Delivers(events[i], x);
  }

  // What one event adds to the bytes a peer has earned.
  lemma EarnedStep(size: nat, events: seq<Event>, e: Event, peer: Endpoint, missing: seq<Range>)
    requires MissingIs(size, events, missing)
    ensures e.Removed? ==>
              Earned(size, events + [e], peer) == if e.peer == peer then {} else Earned(size, events, peer)
    ensures e.Received? && e.peer != peer ==> Earned(size, events + [e], peer) == Earned(size, events, peer)
    ensures e.Received? && e.peer == peer ==>
              var got := Wanted(missing, e.block);
              && Earned(size, events + [e], peer) == Earned(size, events, peer) + got
              && Earned(size, events, peer) !! got
  {
    forall x: nat
      ensures Earns(events + [e], peer, x) <==>
              if e.Removed? then Earns(events, peer, x) && e.peer != peer
              else Earns(events, peer, x) || (e.peer == peer && Delivers(e, x) && !Covered(events, x))
      ensures Earns(events, peer, x) ==> Covered(events, x)
    {
      EarnsStep(events, e, peer, x);
      if Earns(events, peer, x) {
        EarnedIsCovered(events, peer, x);
      }
    }
  }

  /** After any events, a peer's credit is the number of bytes it was the first to
      deliver since it was last forgotten; there is an entry exactly when that is not 0. */
  lemma {:induction false} RunCredits(size: nat, events: seq<Event>, peer: Endpoint)
    requires size > 0
    ensures CreditFor(Run(size, events).credits, peer, Earned(size, events, peer))
  {
    if events == [] {
      assert Earned(size, events, peer) == {};
    } else {
      var before, e := events[..|events| - 1], events[|events| - 1];
      RunCredits(size, before, peer);
      RunMissing(size, before);
      assert events == before + [e];
      RunSnoc(size, before, e);
      StepCredits(size, before, e, peer, Run(size, before));
    }
  }

  // The entry of a peer that has earned these bytes.
  ghost predicate CreditFor(credits: map<Endpoint, nat>, peer: Endpoint, earned: set<nat>) {
    && Credit(credits, peer) == |earned|
    && (peer in credits <==> earned != {})
  }

  lemma StepCredits(size: nat, events: seq<Event>, e: Event, peer: Endpoint, s: State)
    requires MissingIs(size, events, s.missing) && CreditFor(s.credits, peer, Earned(size, events, peer))
    ensures CreditFor(Step(s, e).credits, peer, Earned(size, events + [e], peer))
  {
    EarnedStep(size, events, e, peer, s.missing);
    match e {
      case Received(other, block) =>
        CreditedFor(s.credits, peer, Earned(size, events, peer), other, Wanted(s.missing, block));
      case Removed(other) =>
    }
  }

  lemma CreditedFor(credits: map<Endpoint, nat>, peer: Endpoint, earned: set<nat>, other: Endpoint, got: set<nat>)
    requires CreditFor(credits, peer, earned)
    ensures other != peer ==> CreditFor(Credited(credits, other, |got|), peer, earned)
    ensures other == peer && earned !! got ==> CreditFor(Credited(credits, other, |got|), peer, earned + got)
  {
    if earned !! got {
      DisjointCard(earned, got);
    }
    assert got == {} ==> earned + got == earned;
  }

  lemma DisjointCard(a: set<nat>, b: set<nat>)
    requires a !! b
    ensures |a + b| == |a| + |b|
  {
  }

  /** The blocks cover the piece exactly when nothing is missing. */
  lemma CompletedExactly(size: nat, events: seq<Event>)
    requires size > 0
    ensures Run(size, events).missing == [] <==> forall x: nat :: x < size ==> Covered(events, x)
  {
    var missing := Run(size, events).missing;
    RunMissing(size, events);
    if missing != [] {
      LeastByte(missing);
      assert !Covered(events, missing[0].start);
    }
  }

  /** What is missing depends only on which bytes have arrived: not on the order of the
      blocks, how they overlap, who sent them or how often. */
  lemma OnlyTheUnionMatters(size: nat, a: seq<Event>, b: seq<Event>)
    requires size > 0
    requires forall x: nat :: x < size ==> (Covered(a, x) <==> Covered(b, x))
    ensures Run(size, a).missing == Run(size, b).missing
  {
    RunMissing(size, a);
    RunMissing(size, b);
    CanonicalIsUnique(Run(size, a).missing, Run(size, b).missing);
  }

  // ---- Conservation ----

  ghost function Sum(credits: map<Endpoint, nat>): nat {
    if credits == map[] then 0
    else
      var p :| p in credits;
      credits[p] + Sum(credits - {p})
  }

  lemma {:induction false} SumWithout(credits: map<Endpoint, nat>, peer: Endpoint)
    requires peer in credits
    ensures Sum(credits) == credits[peer] + Sum(credits - {peer})
    decreases |credits|
  {
    var p :| p in credits && Sum(credits) == credits[p] + Sum(credits - {p});
    if p != peer {
      SumWithout(credits - {p}, peer);
      SumWithout(credits - {peer}, p);
      assert credits - {p} - {peer} == credits - {peer} - {p};
    }
  }

  lemma SumUpdate(credits: map<Endpoint, nat>, peer: Endpoint, n: nat)
    ensures Sum(credits[peer := n]) == Sum(credits) - Credit(credits, peer) + n
  {
    var after := credits[peer := n];
    SumWithout(after, peer);
    assert after - {peer} == credits - {peer};
    if peer in credits {
      SumWithout(credits, peer);
    } else {
      assert credits - {peer} == credits;
    }
  }

  ghost predicate NoRemoval(events: seq<Event>) {
    forall e :: e in events ==> e.Received?
  }

  ghost function Balance(s: State): int {
    Sum(s.credits) + Total(s.missing)
  }

  /** The bytes that arrived and that nobody is credited with, because the peer that
      delivered them first was forgotten. */
  ghost function Forfeited(size: nat, events: seq<Event>): set<nat> {
    set x: nat | x < size && Forfeits(events, x)
  }

  ghost predicate Forfeits(events: seq<Event>, x: nat) {
    Covered(events, x) && forall p :: !Earns(events, p, x)
  }

  lemma EarnerIsUnique(events: seq<Event>, p: Endpoint, q: Endpoint, x: nat)
    requires Earns(events, p, x) && Earns(events, q, x)
    ensures p == q
  {
    var i: nat :| EarnsAt(events, p, x, i);
    var j: nat :| EarnsAt(events, q, x, j);
    assert i == j;
  }

  lemma ForfeitsStep(events: seq<Event>, e: Event, x: nat)
    ensures Forfeits(events + [e], x) <==> Forfeits(events, x) || (e.Removed? && Earns(events, e.peer, x))
  {
    var all := events + [e];
    CoveredStep(events, e, x);
    forall p ensures Earns(all, p, x) <==>
        if e.Removed? then Earns(events, p, x) && e.peer != p
        else Earns(events, p, x) || (e.peer == p && Delivers(e, x) && !Covered(events, x)) {
      EarnsStep(events, e, p, x);
    }
    if e.Removed? && Earns(events, e.peer, x) {
      EarnedIsCovered(events, e.peer, x);
      forall p | Earns(events, p, x) ensures p == e.peer {
        EarnerIsUnique(events, p, e.peer, x);
      }
    }
    if e.Received? && !Covered(events, x) && Delivers(e, x) {
      assert Earns(all, e.peer, x);
    }
    if p :| Earns(events, p, x) {
      EarnedIsCovered(events, p, x);
    }
  }

  lemma ForfeitedStep(size: nat, events: seq<Event>, e: Event)
    ensures e.Received? ==> Forfeited(size, events + [e]) == Forfeited(size, events)
    ensures e.Removed? ==>
              |Forfeited(size, events + [e])| == |Forfeited(size, events)| + |Earned(size, events, e.peer)|
  {
    forall x: nat
      ensures Forfeits(events + [e], x) <==> Forfeits(events, x) || (e.Removed? && Earns(events, e.peer, x)) {
      ForfeitsStep(events, e, x);
    }
    if e.Removed? {
      DisjointCard(Forfeited(size, events), Earned(size, events, e.peer));
      assert Forfeited(size, events + [e]) == Forfeited(size, events) + Earned(size, events, e.peer);
    }
  }

  /** The credits, what is missing and what was forfeited always add up to the piece. */
  lemma {:induction false} RunConserves(size: nat, events: seq<Event>)
    requires size > 0
    ensures Balance(Run(size, events)) + |Forfeited(size, events)| == size
  {
    if events == [] {
      TotalOfFew(Range(0, size), Range(0, size));
      assert Sum(map[]) == 0;
      assert Run(size, events) == State([Range(0, size)], map[]);
      assert Forfeited(size, events) == {};
    } else {
      var before, e := events[..|events| - 1], events[|events| - 1];
      RunConserves(size, before);
      RunMissing(size, before);
      RunCredits(size, before, e.peer);
      assert events == before + [e];
      RunSnoc(size, before, e);
      ForfeitedStep(size, before, e);
      StepConserves(Run(size, before), e, Run(size, events));
    }
  }

  /** So while no peer is forgotten, the credits and what is missing make up the piece. */
  lemma {:induction false} NothingForfeited(size: nat, events: seq<Event>)
    requires size > 0 && NoRemoval(events)
    ensures Forfeited(size, events) == {}
    ensures Balance(Run(size, events)) == size
  {
    RunConserves(size, events);
    if events == [] {
    } else {
      var before, e := events[..|events| - 1], events[|events| - 1];
      assert events == before + [e];
      NothingForfeited(size, before);
      ForfeitedStep(size, before, e);
    }
  }

  lemma StepConserves(s: State, e: Event, s': State)
    requires Canonical(s.missing) && s' == Step(s, e)
    ensures Balance(s') == Balance(s) - if e.Removed? then Credit(s.credits, e.peer) else 0
  {
    match e {
      case Received(peer, block) =>
        HollowedTotal(s.missing, BlockRange(block));
        SumCredited(s.credits, peer, |Wanted(s.missing, block)|);
      case Removed(peer) =>
        if peer in s.credits {
          SumWithout(s.credits, peer);
        } else {
          assert s.credits - {peer} == s.credits;
        }
    }
  }

  lemma SumCredited(credits: map<Endpoint, nat>, peer: Endpoint, n: nat)
    ensures Sum(Credited(credits, peer, n)) == Sum(credits) + n
  {
    SumUpdate(credits, peer, Credit(credits, peer) + n);
  }

  // ---- The requests of a queue ----

  lemma {:induction false} SomeBlockHas(dim: Dimension, piece: nat, offset: nat, x: nat)
    requires Dimensions.Valid(dim) && piece < dim.numPieces
    requires offset <= x < CheckedPieceSize(dim, piece).value
    ensures exists b :: b in BlocksFrom(dim, piece, offset, CheckedPieceSize(dim, piece).value)
                        && Within(BlockRange(b), x)
    decreases x - offset
  {
    var pieceSize := CheckedPieceSize(dim, piece).value;
    var size := Min(pieceSize - offset, dim.blockSize);
    var b := BlockDesc(BlockOffset(piece, offset), size);
    var all := BlocksFrom(dim, piece, offset, pieceSize);
    assert all[0] == b && all[1..] == BlocksFrom(dim, piece, offset + size, pieceSize);
    if x >= offset + size {
      SomeBlockHas(dim, piece, offset + size, x);
      var c :| c in all[1..] && Within(BlockRange(c), x);
      assert c in all;
    } else {
      assert b in all && Within(BlockRange(b), x);
    }
  }

  /** Once every block the queue starts out to request has arrived, whatever else
      arrived and in whatever order, the piece is complete. */
  lemma RequestsSuffice(dim: Dimension, piece: nat, events: seq<Event>)
    requires Dimensions.Valid(dim) && piece < dim.numPieces
    requires forall b :: b in BlocksFrom(dim, piece, 0, CheckedPieceSize(dim, piece).value) ==>
               exists i :: 0 <= i < |events| && events[i].Received? && events[i].block == b
    ensures Run(CheckedPieceSize(dim, piece).value, events).missing == []
  {
    PieceInside(dim, piece);
    var size := CheckedPieceSize(dim, piece).value;
    forall x: nat | x < size ensures Covered(events, x) {
      SomeBlockHas(dim, piece, 0, x);
      var b :| b in BlocksFrom(dim, piece, 0, size) && Within(BlockRange(b), x);
      var i :| 0 <= i < |events| && events[i].Received? && events[i].block == b;
      assert Delivers(events[i], x);
    }
    CompletedExactly(size, events);
  }

  // ---- The queue itself ----

  class Queue {
    const size: nat
    const progress: Progress
    var recvStats: map<Endpoint, nat>
    ghost var events: seq<Event>

    /** The fields are what the run of all events so far makes of a new queue. */
    ghost predicate Valid()
      reads this, progress
    {
      size > 0 && State(progress.notYetReceived, recvStats) == Run(size, events)
    }

    constructor (dim: Dimension, piece: nat)
      requires Dimensions.Valid(dim) && piece < dim.numPieces
      ensures Valid() && events == [] && fresh(progress)
      ensures progress.piece == piece && size == CheckedPieceSize(dim, piece).value
    {
      PieceInside(dim, piece);
      size := CheckedPieceSize(dim, piece).value;
      progress := new Progress(dim, piece);
      recvStats := map[];
      events := [];
    }

    method AddProgress(peer: Endpoint, block: BlockDesc) returns (received: nat)
      requires Valid() && block.start.piece == progress.piece
      modifies this, progress
      ensures Valid() && events == old(events) + [Received(peer, block)]
      ensures received == |Wanted(old(progress.notYetReceived), block)|
    {
      RunMissing(size, events);
      received := progress.Add(block);
      recvStats := Credited(recvStats, peer, received);
      events := events + [Received(peer, block)];
      RunSnoc(size, old(events), Received(peer, block));
    }

    /** The part of forgetting a peer that concerns this queue. */
    method RemovePeer(peer: Endpoint)
      requires Valid()
      modifies this
      ensures Valid() && events == old(events) + [Removed(peer)]
    {
      recvStats := recvStats - {peer};
      events := events + [Removed(peer)];
      RunSnoc(size, old(events), Removed(peer));
    }

    method IsCompleted() returns (done: bool)
      requires Valid()
      ensures done <==> forall x: nat :: x < size ==> Covered(events, x)
    {
      RunMissing(size, events);
      CompletedExactly(size, events);
      done := progress.IsCompleted();
      if progress.notYetReceived != [] {
        LeastByte(progress.notYetReceived);
      }
    }
  }

  /** The queues of all pieces that have one. */
  class QueueMap {
    const dim: Dimension
    var queues: map<nat, Queue>

    ghost predicate Valid()
      reads this, queues.Values, set q | q in queues.Values :: q.progress
    {
      && Dimensions.Valid(dim) && AllApart()
      && (forall p :: p in queues ==> p < dim.numPieces && queues[p].size == CheckedPieceSize(dim, p).value)
      && (forall p :: p in queues ==> queues[p].Valid() && queues[p].progress.piece == p)
    }

    ghost predicate AllApart()
      reads this
    {
      forall p, q :: p in queues && q in queues && p != q ==>
        queues[p] != queues[q] && queues[p].progress != queues[q].progress
    }

    constructor (dim: Dimension)
      requires Dimensions.Valid(dim)
      ensures Valid() && queues == map[] && this.dim == dim
    {
      this.dim := dim;
      queues := map[];
    }

    /** The queue of a piece, a new one if it has none. */
    method GetOrDefault(piece: nat) returns (queue: Queue)
      requires Valid() && piece < dim.numPieces
      modifies this
      ensures Valid() && piece in queues && queues[piece] == queue
      ensures queues == if piece in old(queues) then old(queues) else old(queues)[piece := queue]
      ensures piece !in old(queues) ==> fresh(queue) && queue.events == []
    {
      if piece in queues {
        return queues[piece];
      }
      queue := new Queue(dim, piece);
      queues := queues[piece := queue];
    }

    /** Forgets a peer in all queues. */
    method RemovePeer(peer: Endpoint)
      requires Valid()
      modifies queues.Values
      ensures Valid() && queues == old(queues)
      ensures forall p :: p in queues ==> queues[p].events == old(queues[p].events) + [Removed(peer)]
    {
      var todo := queues.Keys;
      while todo != {}
        invariant todo <= queues.Keys && AllApart()
        invariant forall p :: p in queues ==> queues[p].Valid()
        invariant forall p :: p in todo ==> queues[p].events == old(queues[p].events)
        invariant forall p :: p in queues.Keys - todo ==>
                    queues[p].events == old(queues[p].events) + [Removed(peer)]
        decreases todo
      {
        var p :| p in todo;
        assert queues[p] in queues.Values;
        queues[p].RemovePeer(peer);
        todo := todo - {p};
      }
    }

    /** Takes the queue of a piece out and returns what each peer contributed. */
    method Remove(piece: nat) returns (recvStats: map<Endpoint, nat>)
      requires Valid() && piece in queues
      modifies this
      ensures Valid() && queues == old(queues) - {piece}
      ensures recvStats == Run(old(queues)[piece].size, old(queues[piece].events)).credits
    {
      recvStats := queues[piece].recvStats;
      queues := queues - {piece};
    }
  }
}
