/**
  Whole lookups (rust/bittorrent/dht/src/lookup.rs): termination, what they
  return, and exactly when they can panic.
 */
module LookupRuns {
  import opened Common
  import opened Sorting
  import opened NodeIds
  import opened Lookups

  /** The invariant between rounds. */
  ghost predicate Invariant(st: State, target: Id, limit: nat, net: Network) {
    && Consistent(st, st.queried, target, net)
    && CandidatesOk(st, target, net)
    && st.closest == Take(st.good, limit)
  }

  /** A round whose answers arrive in this order. */
  function RoundIn(st: State, target: Id, limit: nat, net: Network, order: seq<Contact>): Result<State, Failure>
    requires Elems(order) <= net.Keys
  {
    match ProcessAll(Asked(st, limit), target, order, net)
    case Err(e) => Err(e)
    case Ok(st') => Ok(st'.(closest := Take(st'.good, limit)))
  }

  /** A round whose answers arrive in the order of the questions. */
  function Round(st: State, target: Id, limit: nat, net: Network): Result<State, Failure>
    requires Elems(Batch(st, limit)) <= net.Keys
  {
    RoundIn(st, target, limit, net, Batch(st, limit))
  }

  ghost function Remaining(st: State, net: Network): nat {
    |net.Keys - st.queried|
  }

  /** The lookup as a function: rounds until there is no candidate or no news. */
  ghost function LookupFrom(st: State, target: Id, limit: nat, net: Network, initial: seq<Contact>)
      : Result<State, Failure>
    requires Invariant(st, target, limit, net) && Closed(net, initial)
    decreases Remaining(st, net)
  {
    if st.candidates == [] then Ok(st)
    else
      RoundKeeps(st, target, limit, net, initial);
      match Round(st, target, limit, net)
      case Err(e) => Err(e)
      case Ok(st') =>
        if st'.closest == st.closest then Ok(st') else LookupFrom(st', target, limit, net, initial)
  }

  lemma {:induction false} NotInElems(cs: seq<Contact>, seen: set<Contact>)
    ensures Elems(NotIn(cs, seen)) == Elems(cs) - seen
  {
    if cs != [] {
      var first := if cs[0] in seen then [] else [cs[0]];
      NotInElems(cs[1..], seen);
      ElemsConcat([cs[0]], cs[1..]);
      ElemsConcat(first, NotIn(cs[1..], seen));
      assert cs == [cs[0]] + cs[1..];
    }
  }

  lemma {:induction false} NotInStrict(cs: seq<Contact>, seen: set<Contact>, target: Id)
    requires Strict(cs, target)
    ensures Strict(NotIn(cs, seen), target)
  {
    if cs != [] {
      var rest := NotIn(cs[1..], seen);
      NotInStrict(cs[1..], seen, target);
      NotInElems(cs[1..], seen);
      forall k | 0 <= k < |rest| ensures Distance(target, cs[0].id) < Distance(target, rest[k].id) {
        assert rest[k] in Elems(rest);
      }
    }
  }

  /** As many of the contacts as there are, up to the limit, and nearer than all others. */
  ghost predicate NearestOf(part: set<Contact>, all: set<Contact>, target: Id, limit: nat) {
    && part <= all && |part| == Min(limit, |all|)
    && forall a, c :: a in part && c in all - part ==> Distance(target, a.id) < Distance(target, c.id)
  }

  lemma {:induction false} DistinctCard(cs: seq<Contact>)
    requires Distinct(cs)
    ensures |Elems(cs)| == |cs|
  {
    if cs != [] {
      HeadAndTail(cs);
      DistinctCard(cs[1..]);
    }
  }

  lemma TakeNearest(cs: seq<Contact>, target: Id, limit: nat)
    requires Strict(cs, target)
    ensures Distinct(cs) && NearestOf(Elems(Take(cs, limit)), Elems(cs), target, limit)
  {
    var part := Take(cs, limit);
    DistinctCard(cs);
    DistinctCard(part);
    forall a, c | a in Elems(part) && c in Elems(cs) - Elems(part)
      ensures Distance(target, a.id) < Distance(target, c.id)
    {
      var i :| 0 <= i < |part| && part[i] == a;
      var j :| 0 <= j < |cs| && cs[j] == c;
      assert forall k :: 0 <= k < |part| ==> part[k] in Elems(part);
    }
  }

  /** A round asks contacts not asked before, each once: all such candidates up to the
      limit, and the nearest of them. */
  lemma BatchProperties(st: State, target: Id, limit: nat, net: Network)
    requires CandidatesOk(st, target, net)
    ensures Distinct(Batch(st, limit))
    ensures Elems(Batch(st, limit)) <= net.Keys && Elems(Batch(st, limit)) !! st.queried
    ensures NearestOf(Elems(Batch(st, limit)), Elems(st.candidates) - st.queried, target, limit)
  {
    NotInStrict(st.candidates, st.queried, target);
    NotInElems(st.candidates, st.queried);
    TakeNearest(NotIn(st.candidates, st.queried), target, limit);
  }

  lemma AskedConsistent(st: State, target: Id, limit: nat, net: Network)
    requires Invariant(st, target, limit, net)
    ensures Consistent(Asked(st, limit), st.queried, target, net)
    ensures CandidatesOk(Asked(st, limit), target, net)
  {
  }

  lemma AskingProgresses(queried: set<Contact>, batch: set<Contact>, known: set<Contact>)
    requires batch <= known && batch !! queried && batch != {}
    ensures |known - (queried + batch)| < |known - queried|
  {
    var c :| c in batch;
    SubsetCard(known - (queried + batch), known - queried - {c});
  }

  lemma NonEmptyElems(order: seq<Contact>)
    ensures order == [] <==> Elems(order) == {}
  {
    if order != [] {
      assert order[0] in Elems(order);
    }
  }

  /** A round, in whatever order its answers arrive, keeps the invariant, and makes
      news only by asking somebody new. */
  lemma RoundInAnyOrder(st: State, target: Id, limit: nat, net: Network, initial: seq<Contact>, order: seq<Contact>)
    requires Invariant(st, target, limit, net) && Closed(net, initial)
    requires IsOrderOf(order, Elems(Batch(st, limit)))
    ensures Elems(order) <= net.Keys
    ensures match RoundIn(st, target, limit, net, order)
            case Ok(st') =>
              && Invariant(st', target, limit, net)
              && st'.queried == st.queried + Elems(Batch(st, limit))
              && (st'.closest != st.closest ==> Remaining(st', net) < Remaining(st, net))
            case Err(DuplicateGoodNode) => !IdDeterminesEndpoint(net.Keys)
            case Err(MissingToken) => !PeersComeWithToken(net)
  {
    BatchProperties(st, target, limit, net);
    AskedConsistent(st, target, limit, net);
    ProcessAllKeeps(Asked(st, limit), st.queried, target, net, initial, order);
    var batch := Elems(Batch(st, limit));
    if batch == {} {
      NonEmptyElems(order);
    } else {
      AskingProgresses(st.queried, batch, net.Keys);
    }
  }

  lemma RoundKeeps(st: State, target: Id, limit: nat, net: Network, initial: seq<Contact>)
    requires Invariant(st, target, limit, net) && Closed(net, initial)
    ensures Elems(Batch(st, limit)) <= net.Keys
    ensures match Round(st, target, limit, net)
            case Ok(st') =>
              && Invariant(st', target, limit, net)
              && st'.queried == st.queried + Elems(Batch(st, limit))
              && (st'.closest != st.closest ==> Remaining(st', net) < Remaining(st, net))
            case Err(DuplicateGoodNode) => !IdDeterminesEndpoint(net.Keys)
            case Err(MissingToken) => !PeersComeWithToken(net)
  {
    BatchProperties(st, target, limit, net);
    RoundInAnyOrder(st, target, limit, net, initial, Batch(st, limit));
  }

  lemma StartInvariant(initial: seq<Contact>, target: Id, limit: nat, net: Network)
    requires Closed(net, initial)
    ensures Invariant(Start(initial, target), target, limit, net)
  {
    UpsertAllOk([], initial, target, net.Keys);
  }

  lemma {:induction false} LookupKeeps(st: State, target: Id, limit: nat, net: Network, initial: seq<Contact>)
    requires Invariant(st, target, limit, net) && Closed(net, initial)
    ensures match LookupFrom(st, target, limit, net, initial)
            case Ok(st') => Invariant(st', target, limit, net)
            case Err(DuplicateGoodNode) => !IdDeterminesEndpoint(net.Keys)
            case Err(MissingToken) => !PeersComeWithToken(net)
    decreases Remaining(st, net)
  {
    if st.candidates != [] {
      RoundKeeps(st, target, limit, net, initial);
      match Round(st, target, limit, net) {
        case Err(_) =>
        case Ok(st') =>
          if st'.closest != st.closest {
            LookupKeeps(st', target, limit, net, initial);
          }
      }
    }
  }

  /** The result of a lookup whose answers arrive in the order of the questions. */
  ghost function Expected(initial: seq<Contact>, target: Id, limit: nat, net: Network): Result<State, Failure>
    requires Closed(net, initial)
  {
    StartInvariant(initial, target, limit, net);
    LookupFrom(Start(initial, target), target, limit, net, initial)
  }

  // ---- Every way a lookup can go ----

  /** The answers of the next round may arrive in this order. */
  ghost predicate MayArrive(st: State, limit: nat, net: Network, order: seq<Contact>) {
    st.candidates != [] && IsOrderOf(order, Elems(Batch(st, limit))) && Elems(order) <= net.Keys
  }

  /** A round with news. */
  ghost predicate Continues(st: State, target: Id, limit: nat, net: Network, order: seq<Contact>, st': State) {
    MayArrive(st, limit, net, order) && RoundIn(st, target, limit, net, order) == Ok(st') && st'.closest != st.closest
  }

  /** The states between rounds whose answers arrived in the orders `orders`. */
  ghost predicate Trace(initial: seq<Contact>, target: Id, limit: nat, net: Network,
                        orders: seq<seq<Contact>>, sts: seq<State>) {
    && |sts| == |orders| + 1 && sts[0] == Start(initial, target)
    && forall k :: 0 <= k < |orders| ==> Continues(sts[k], target, limit, net, orders[k], sts[k + 1])
  }

  /** The last round panics or brings no news. */
  ghost predicate LastRound(st: State, target: Id, limit: nat, net: Network, order: seq<Contact>,
                            r: Result<State, Failure>) {
    && MayArrive(st, limit, net, order) && RoundIn(st, target, limit, net, order) == r
    && (r.Ok? ==> r.value.closest == st.closest)
  }

  /** The lookup is over: no candidates are left, or a last round is played. */
  ghost predicate Ends(st: State, target: Id, limit: nat, net: Network, r: Result<State, Failure>) {
    || (st.candidates == [] && r == Ok(st))
    || exists order :: LastRound(st, target, limit, net, order, r)
  }

  /** What some lookup over this network may come to. */
  ghost predicate Outcome(initial: seq<Contact>, target: Id, limit: nat, net: Network, r: Result<State, Failure>) {
    exists orders, sts :: Trace(initial, target, limit, net, orders, sts) && Ends(sts[|orders|], target, limit, net, r)
  }

  lemma {:induction false} TraceKeeps(initial: seq<Contact>, target: Id, limit: nat, net: Network,
                                      orders: seq<seq<Contact>>, sts: seq<State>, k: nat)
    requires Closed(net, initial) && Trace(initial, target, limit, net, orders, sts) && k < |sts|
    ensures Invariant(sts[k], target, limit, net)
  {
    if k == 0 {
      StartInvariant(initial, target, limit, net);
    } else {
      TraceKeeps(initial, target, limit, net, orders, sts, k - 1);
      assert Continues(sts[k - 1], target, limit, net, orders[k - 1], sts[k - 1 + 1]);
      RoundInAnyOrder(sts[k - 1], target, limit, net, initial, orders[k - 1]);
    }
  }

  lemma TraceNext(initial: seq<Contact>, target: Id, limit: nat, net: Network,
                  orders: seq<seq<Contact>>, sts: seq<State>, order: seq<Contact>, st: State)
    requires Trace(initial, target, limit, net, orders, sts)
    requires Continues(sts[|orders|], target, limit, net, order, st)
    ensures Trace(initial, target, limit, net, orders + [order], sts + [st])
  {
    var orders', sts' := orders + [order], sts + [st];
    forall k | 0 <= k < |orders'| ensures Continues(sts'[k], target, limit, net, orders'[k], sts'[k + 1]) {
      assert k < |orders| ==> sts'[k] == sts[k] && sts'[k + 1] == sts[k + 1] && orders'[k] == orders[k];
    }
  }

  /** Whatever the answers and the order of their arrival, a lookup ends with the invariant,
      or panics and the network breaks the assumption behind that. */
  lemma OutcomeKeeps(initial: seq<Contact>, target: Id, limit: nat, net: Network, r: Result<State, Failure>)
    requires Closed(net, initial) && Outcome(initial, target, limit, net, r)
    ensures match r
            case Ok(st) => Invariant(st, target, limit, net)
            case Err(DuplicateGoodNode) => !IdDeterminesEndpoint(net.Keys)
            case Err(MissingToken) => !PeersComeWithToken(net)
  {
    var orders, sts :| Trace(initial, target, limit, net, orders, sts) && Ends(sts[|orders|], target, limit, net, r);
    var st := sts[|orders|];
    TraceKeeps(initial, target, limit, net, orders, sts, |orders|);
    if order :| LastRound(st, target, limit, net, order, r) {
      RoundInAnyOrder(st, target, limit, net, initial, order);
    }
  }

  /** The function above is one of these ways. */
  lemma {:induction false} FromIsOutcome(initial: seq<Contact>, target: Id, limit: nat, net: Network,
                                         orders: seq<seq<Contact>>, sts: seq<State>)
    requires Closed(net, initial) && Trace(initial, target, limit, net, orders, sts)
    requires Invariant(sts[|orders|], target, limit, net)
    ensures Outcome(initial, target, limit, net, LookupFrom(sts[|orders|], target, limit, net, initial))
    decreases Remaining(sts[|orders|], net)
  {
    var st := sts[|orders|];
    if st.candidates != [] {
      var batch := Batch(st, limit);
      BatchProperties(st, target, limit, net);
      RoundKeeps(st, target, limit, net, initial);
      var r := Round(st, target, limit, net);
      if r.Ok? && r.value.closest != st.closest {
        TraceNext(initial, target, limit, net, orders, sts, batch, r.value);
        FromIsOutcome(initial, target, limit, net, orders + [batch], sts + [r.value]);
      } else {
        assert LastRound(st, target, limit, net, batch, r);
      }
    }
  }

  lemma ExpectedIsOutcome(initial: seq<Contact>, target: Id, limit: nat, net: Network)
    requires Closed(net, initial)
    ensures Outcome(initial, target, limit, net, Expected(initial, target, limit, net))
  {
    StartInvariant(initial, target, limit, net);
    assert Trace(initial, target, limit, net, [], [Start(initial, target)]);
    FromIsOutcome(initial, target, limit, net, [], [Start(initial, target)]);
  }

  /** The fields that `lookup_peers` accumulates. */
  class PeerLookuper {
    var peers: set<Peer>
    var announce: Option<(Contact, Token)>

    constructor ()
      ensures peers == {} && announce == None
    {
      peers := {};
      announce := None;
    }

    /** The nodes the reply names, or the panic of unwrapping a missing token. */
    method ProcessResponse(target: Id, node: Contact, reply: Reply) returns (r: Result<seq<Contact>, Failure>)
      modifies this
      ensures var a := Answered(reply);
              var moves := HasPeers(a) && IsCloser(old(announce), target, node);
              if moves && reply.token.None? then r == Err(MissingToken)
              else
                && r == Ok(NodesOf(a))
                && peers == old(peers) + (set p | p in PeersOf(a))
                && announce == if moves then Some((node, reply.token.value)) else old(announce)
    {
      if reply.peers.Some? {
        peers := peers + (set p | p in reply.peers.value);
        if IsCloser(announce, target, node) {
          if reply.token.None? {
            return Err(MissingToken);
          }
          announce := Some((node, reply.token.value));
        }
      }
      return Ok(if reply.nodes.Some? then reply.nodes.value else []);
    }
  }

  /** Collects the answers of a batch, in an order of the network's choosing. */
  method CollectAnswers(candidates0: seq<Contact>, good0: seq<Contact>, batch: seq<Contact>,
                        lookuper: PeerLookuper, target: Id, net: Network, ghost asked: State)
      returns (candidates: seq<Contact>, good: seq<Contact>, dropped: set<Contact>, failure: Option<Failure>,
               ghost order: seq<Contact>)
    requires Elems(batch) <= net.Keys
    requires asked.candidates == candidates0 && asked.good == good0
    requires asked.peers == lookuper.peers && asked.announce == lookuper.announce
    modifies lookuper
    ensures Distinct(order) && Elems(order) <= Elems(batch)
    ensures failure.Some? ==> ProcessAll(asked, target, order, net) == Err(failure.value)
    ensures failure.None? ==>
              && Elems(order) == Elems(batch)
              && ProcessAll(asked, target, order, net) == Ok(asked.(
                   candidates := candidates, good := good, dropped := asked.dropped + dropped,
                   peers := lookuper.peers, announce := lookuper.announce))
  {
    candidates, good, dropped, failure, order := candidates0, good0, {}, None, [];
    ghost var mid := asked;
    var pending := Elems(batch);
    while pending != {}
      invariant pending <= Elems(batch) && IsOrderOf(order, Elems(batch) - pending)
      invariant mid == asked.(candidates := candidates, good := good, dropped := asked.dropped + dropped,
                              peers := lookuper.peers, announce := lookuper.announce)
      invariant ProcessAll(asked, target, order, net) == Ok(mid) && failure.None?
      decreases pending
    {
      var c :| c in pending;
      ProcessAppend(asked, target, net, order, c);
      order := order + [c];
      pending := pending - {c};
      match net[c] {
        case Failed =>
          dropped := dropped + {c};
        case Answered(reply) =>
          var nodes := lookuper.ProcessResponse(target, c, reply);
          if nodes.Err? {
            failure := Some(nodes.error);
            return;
          }
          candidates := UpsertAll(candidates, nodes.value, target);
          if HasKey(good, target, Distance(target, c.id)) {
            failure := Some(DuplicateGoodNode);
            return;
          }
          good := Upsert(good, c, target);
      }
      mid := Process(mid, target, c, net[c]).value;
    }
  }

  // The end of a round: what the answers, in the order they came, amount to.
  lemma RoundEnds(st: State, target: Id, limit: nat, net: Network, initial: seq<Contact>, order: seq<Contact>)
    requires Invariant(st, target, limit, net) && Closed(net, initial)
    requires Distinct(order) && Elems(order) <= Elems(Batch(st, limit)) && Elems(order) <= net.Keys
    ensures match ProcessAll(Asked(st, limit), target, order, net)
            case Ok(_) => true
            case Err(DuplicateGoodNode) => !IdDeterminesEndpoint(net.Keys)
            case Err(MissingToken) => !PeersComeWithToken(net)
    ensures Elems(order) == Elems(Batch(st, limit)) && Clean(net) ==>
              Elems(Batch(st, limit)) <= net.Keys
              && ProcessAll(Asked(st, limit), target, order, net)
                 == ProcessAll(Asked(st, limit), target, Batch(st, limit), net)
  {
    BatchProperties(st, target, limit, net);
    AskedConsistent(st, target, limit, net);
    ProcessAllKeeps(Asked(st, limit), st.queried, target, net, initial, order);
    if Elems(order) == Elems(Batch(st, limit)) && Clean(net) {
      OrderIsIrrelevant(Asked(st, limit), st.queried, target, net, initial, Batch(st, limit), order);
    }
  }

  /**
    The lookup, with the answers of each round arriving in an order of the
    network's choosing; `asked` lists all its questions.  It always terminates, and no
    contact is asked twice.  When it returns, the closest nodes are the first `limit`,
    by distance, of exactly the contacts that answered, and the announce target is the
    nearest responder that returned peers.  When it panics, either some id has two
    endpoints or some reply has peers and no token.  Without these, the result is that
    of the function above, whatever the order.  In any case it is one of the outcomes
    above.
   */
  method Lookup(initial: seq<Contact>, target: Id, limit: nat, net: Network)
      returns (r: Result<State, Failure>, asked: seq<Contact>)
    requires Closed(net, initial)
    ensures Distinct(asked) && (r.Ok? ==> Elems(asked) == r.value.queried)
    ensures Outcome(initial, target, limit, net, r)
    ensures r.Ok? ==> Invariant(r.value, target, limit, net)
    ensures r == Err(DuplicateGoodNode) ==> !IdDeterminesEndpoint(net.Keys)
    ensures r == Err(MissingToken) ==> !PeersComeWithToken(net)
    ensures Clean(net) ==> r.Ok? && r == Expected(initial, target, limit, net)
  {
    asked := [];
    var candidates := UpsertAll([], initial, target);
    var good, closest: seq<Contact> := [], [];
    var queried, dropped: set<Contact> := {}, {};
    var lookuper := new PeerLookuper();
    StartInvariant(initial, target, limit, net);
    ghost var st := Start(initial, target);
    ghost var orders: seq<seq<Contact>>, sts := [], [st];
    while candidates != []
      invariant fresh(lookuper)
      invariant Trace(initial, target, limit, net, orders, sts) && sts[|orders|] == st
      invariant Distinct(asked) && Elems(asked) == queried
      invariant st == State(candidates, good, closest, queried, dropped, lookuper.peers, lookuper.announce)
      invariant Invariant(st, target, limit, net)
      invariant Clean(net) ==> Expected(initial, target, limit, net) == LookupFrom(st, target, limit, net, initial)
      decreases Remaining(st, net)
    {
      BatchProperties(st, target, limit, net);
      RoundKeeps(st, target, limit, net, initial);
      var batch := Take(NotIn(candidates, queried), limit);
      AskedOnce(asked, batch);
      asked := asked + batch;
      queried := queried + Elems(batch);
      var lost, failure;
      ghost var order;
      candidates, good, lost, failure, order :=
        CollectAnswers([], good, batch, lookuper, target, net, Asked(st, limit));
      RoundEnds(st, target, limit, net, initial, order);
      if failure.Some? {
        FailsAnyway(st, target, limit, net, order, failure.value);
        return Err(failure.value), asked;
      }
      dropped := dropped + lost;
      RoundInAnyOrder(st, target, limit, net, initial, order);
      var next := Take(good, limit);
      ghost var st' := State(candidates, good, next, queried, dropped, lookuper.peers, lookuper.announce);
      if closest == next {
        assert LastRound(st, target, limit, net, order, Ok(st'));
        return Ok(State(candidates, good, closest, queried, dropped, lookuper.peers, lookuper.announce)), asked;
      }
      TraceNext(initial, target, limit, net, orders, sts, order, st');
      orders, sts, st, closest := orders + [order], sts + [st'], st', next;
    }
    r := Ok(State(candidates, good, closest, queried, dropped, lookuper.peers, lookuper.announce));
  }

  // A panic in the middle of a round is one of every order that begins like this.
  lemma FailsAnyway(st: State, target: Id, limit: nat, net: Network, order: seq<Contact>, f: Failure)
    requires st.candidates != [] && Elems(Batch(st, limit)) <= net.Keys && Distinct(Batch(st, limit))
    requires Distinct(order) && Elems(order) <= Elems(Batch(st, limit))
    requires ProcessAll(Asked(st, limit), target, order, net) == Err(f)
    ensures exists whole :: LastRound(st, target, limit, net, whole, Err(f))
  {
    var rest := NotIn(Batch(st, limit), Elems(order));
    RestOf(Batch(st, limit), Elems(order));
    AskedOnce(order, rest);
    FailsAtStart(Asked(st, limit), target, net, order, rest, f);
    assert LastRound(st, target, limit, net, order + rest, Err(f));
  }

  lemma {:induction false} RestOf(cs: seq<Contact>, seen: set<Contact>)
    requires Distinct(cs)
    ensures Distinct(NotIn(cs, seen)) && Elems(NotIn(cs, seen)) == Elems(cs) - seen
  {
    if cs != [] {
      RestOf(cs[1..], seen);
      ElemsConcat([cs[0]], cs[1..]);
      assert cs == [cs[0]] + cs[1..] && Elems([cs[0]]) == {cs[0]};
      var rest := NotIn(cs[1..], seen);
      assert cs[0] !in Elems(cs[1..]);
      forall k | 0 <= k < |rest| ensures rest[k] != cs[0] {
        assert rest[k] in Elems(rest);
      }
      ElemsConcat(if cs[0] in seen then [] else [cs[0]], rest);
    }
  }

  lemma {:induction false} FailsAtStart(st: State, target: Id, net: Network, order: seq<Contact>, rest: seq<Contact>,
                                        f: Failure)
    requires Elems(order) <= net.Keys && Elems(order + rest) <= net.Keys
    requires ProcessAll(st, target, order, net) == Err(f)
    ensures ProcessAll(st, target, order + rest, net) == Err(f)
    decreases |order|
  {
    if order != [] {
      assert (order + rest)[0] == order[0] && (order + rest)[1..] == order[1..] + rest;
      assert order[0] in Elems(order) && Elems(order[1..]) <= Elems(order);
      assert Elems(order[1..] + rest) <= Elems(order + rest);
      var r := Process(st, target, order[0], net[order[0]]);
      if r.Ok? {
        FailsAtStart(r.value, target, net, order[1..], rest, f);
      }
    }
  }

  lemma AskedOnce(asked: seq<Contact>, batch: seq<Contact>)
    requires Distinct(asked) && Distinct(batch) && Elems(asked) !! Elems(batch)
    ensures Distinct(asked + batch) && Elems(asked + batch) == Elems(asked) + Elems(batch)
  {
    var all := asked + batch;
    forall i, j | 0 <= i < j < |all| ensures all[i] != all[j] {
      if i < |asked| <= j {
        assert all[i] in Elems(asked) && all[j] in Elems(batch);
      }
    }
  }
}
