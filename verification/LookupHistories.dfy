/**
  Lookups told from the network alone (rust/bittorrent/dht/src/lookup.rs): whom every
  round asks, when it was the last, and what that says about those never asked.
 */
module LookupHistories {
  import opened Common
  import opened NodeIds
  import opened Lookups
  import opened LookupRuns

  /** One round: whom it could ask, whom it asked, and the closest nodes after it. */
  datatype Turn = Turn(candidates: set<Contact>, asked: set<Contact>, closest: seq<Contact>)

  /** One of the contacts for every id among them. */
  ghost predicate OnePerId(part: set<Contact>, all: set<Contact>) {
    && part <= all && IdDeterminesEndpoint(part)
    && forall c :: c in all ==> exists d :: d in part && d.id == c.id
  }

  /** Everybody named in the answers of these contacts. */
  ghost function Named(asked: set<Contact>, net: Network): set<Contact> {
    set c, n | c in asked && c in net && net[c].Answered? && net[c].reply.nodes.Some?
               && n in net[c].reply.nodes.value :: n
  }

  ghost function AskedBefore(turns: seq<Turn>, k: nat): set<Contact>
    requires k <= |turns|
  {
    if k == 0 then {} else AskedBefore(turns, k - 1) + turns[k - 1].asked
  }

  ghost function Responders(asked: set<Contact>, net: Network): set<Contact> {
    set c | c in asked && c in net && net[c].Answered?
  }

  /** The closest nodes before round `k`. */
  ghost function ClosestBefore(turns: seq<Turn>, k: nat): seq<Contact>
    requires k <= |turns|
  {
    if k == 0 then [] else turns[k - 1].closest
  }

  /** Whom round `k` could hear of: the initial contacts, or those named in round `k - 1`. */
  ghost function HeardOf(turns: seq<Turn>, initial: seq<Contact>, net: Network, k: nat): set<Contact>
    requires k <= |turns|
  {
    if k == 0 then Elems(initial) else Named(turns[k - 1].asked, net)
  }

  /** Round `k` may ask whom it has heard of, one contact for every id. */
  ghost predicate MayAsk(turns: seq<Turn>, initial: seq<Contact>, net: Network, k: nat)
    requires k < |turns|
  {
    turns[k].candidates != {} && OnePerId(turns[k].candidates, HeardOf(turns, initial, net, k))
  }

  /** Of these it asks the nearest not asked before. */
  ghost predicate AsksNearest(turns: seq<Turn>, target: Id, limit: nat, k: nat)
    requires k < |turns|
  {
    NearestOf(turns[k].asked, turns[k].candidates - AskedBefore(turns, k), target, limit)
  }

  /** The closest nodes after round `k` are the nearest of all that have answered. */
  ghost predicate KnowsClosest(turns: seq<Turn>, target: Id, limit: nat, net: Network, k: nat)
    requires k < |turns|
  {
    && Strict(turns[k].closest, target)
    && NearestOf(Elems(turns[k].closest), Responders(AskedBefore(turns, k + 1), net), target, limit)
  }

  /** Round `k` changed the closest nodes. */
  ghost predicate HasNews(turns: seq<Turn>, k: nat)
    requires k < |turns|
  {
    turns[k].closest != ClosestBefore(turns, k)
  }

  ghost predicate History(turns: seq<Turn>, initial: seq<Contact>, target: Id, limit: nat, net: Network) {
    && (forall k :: 0 <= k < |turns| ==> MayAsk(turns, initial, net, k))
    && (forall k :: 0 <= k < |turns| ==> AsksNearest(turns, target, limit, k))
    && (forall k :: 0 <= k < |turns| ==> KnowsClosest(turns, target, limit, net, k))
    && (forall k :: 0 <= k < |turns| - 1 ==> HasNews(turns, k))
  }

  /** The last round brought no news, or nobody was named in it. */
  ghost predicate IsOver(turns: seq<Turn>, initial: seq<Contact>, net: Network) {
    || (turns != [] && !HasNews(turns, |turns| - 1))
    || HeardOf(turns, initial, net, |turns|) == {}
  }

  // ---- Candidates ----

  lemma UpsertOnePerId(m: seq<Contact>, c: Contact, target: Id, all: set<Contact>)
    requires Strict(m, target) && OnePerId(Elems(m), all)
    ensures Strict(Upsert(m, c, target), target) && OnePerId(Elems(Upsert(m, c, target)), all + {c})
  {
    var m' := Upsert(m, c, target);
    UpsertStrict(m, c, target);
    forall y ensures y in m' <==> y == c || (y in m && y.id != c.id) {
      UpsertElems(m, c, target, y);
    }
    forall y | y in all + {c} ensures exists d :: d in Elems(m') && d.id == y.id {
      if y.id == c.id {
        assert c in Elems(m');
      } else {
        var d :| d in Elems(m) && d.id == y.id;
        assert d in Elems(m');
      }
    }
  }

  lemma HeardMore(all: set<Contact>, cs: seq<Contact>)
    ensures cs == [] ==> all + Elems(cs) == all
    ensures cs != [] ==> all + {cs[0]} + Elems(cs[1..]) == all + Elems(cs)
  {
    if cs != [] {
      ElemsConcat([cs[0]], cs[1..]);
      assert cs == [cs[0]] + cs[1..];
    }
  }

  lemma {:induction false} UpsertAllOnePerId(m: seq<Contact>, cs: seq<Contact>, target: Id, all: set<Contact>)
    requires Strict(m, target) && OnePerId(Elems(m), all)
    ensures Strict(UpsertAll(m, cs, target), target) && OnePerId(Elems(UpsertAll(m, cs, target)), all + Elems(cs))
    decreases |cs|
  {
    HeardMore(all, cs);
    if cs != [] {
      UpsertOnePerId(m, cs[0], target, all);
      UpsertAllOnePerId(Upsert(m, cs[0], target), cs[1..], target, all + {cs[0]});
    }
  }

  lemma NamedMore(all: set<Contact>, order: seq<Contact>, net: Network)
    requires Elems(order) <= net.Keys
    ensures order == [] ==> all + Named(Elems(order), net) == all
    ensures order != [] ==>
              && order[0] in net && Elems(order[1..]) <= net.Keys
              && all + Elems(NodesOf(net[order[0]])) + Named(Elems(order[1..]), net) == all + Named(Elems(order), net)
  {
    if order != [] {
      ElemsConcat([order[0]], order[1..]);
      assert order == [order[0]] + order[1..];
      assert Elems(order) == {order[0]} + Elems(order[1..]);
    }
  }

  lemma ProcessOnePerId(st: State, target: Id, c: Contact, a: Answer, all: set<Contact>, st': State)
    requires Process(st, target, c, a) == Ok(st') && Strict(st.candidates, target)
    requires OnePerId(Elems(st.candidates), all)
    ensures Strict(st'.candidates, target) && OnePerId(Elems(st'.candidates), all + Elems(NodesOf(a)))
  {
    assert st'.candidates == UpsertAll(st.candidates, NodesOf(a), target);
    UpsertAllOnePerId(st.candidates, NodesOf(a), target, all);
  }

  lemma {:induction false} ProcessAllOnePerId(st: State, target: Id, order: seq<Contact>, net: Network,
                                              all: set<Contact>)
    requires Elems(order) <= net.Keys && ProcessAll(st, target, order, net).Ok?
    requires Strict(st.candidates, target) && OnePerId(Elems(st.candidates), all)
    ensures OnePerId(Elems(ProcessAll(st, target, order, net).value.candidates), all + Named(Elems(order), net))
    decreases |order|
  {
    NamedMore(all, order, net);
    if order != [] {
      var c, rest := order[0], order[1..];
      var r := Process(st, target, c, net[c]);
      assert ProcessAll(st, target, order, net) == ProcessAll(r.value, target, rest, net);
      ProcessOnePerId(st, target, c, net[c], all, r.value);
      ProcessAllOnePerId(r.value, target, rest, net, all + Elems(NodesOf(net[c])));
    }
  }

  // ---- From the states of a lookup to its history ----

  /** The states between rounds, the last one included. */
  ghost predicate Rounds(initial: seq<Contact>, target: Id, limit: nat, net: Network,
                         orders: seq<seq<Contact>>, sts: seq<State>) {
    && |sts| == |orders| + 1 && sts[0] == Start(initial, target)
    && forall k :: 0 <= k < |orders| ==> IsRound(target, limit, net, sts[k], orders[k], sts[k + 1])
  }

  ghost predicate IsRound(target: Id, limit: nat, net: Network, st: State, order: seq<Contact>, st': State) {
    MayArrive(st, limit, net, order) && RoundIn(st, target, limit, net, order) == Ok(st')
  }

  ghost function TurnsOf(orders: seq<seq<Contact>>, sts: seq<State>): seq<Turn>
    requires |sts| == |orders| + 1
  {
    seq(|orders|, k requires 0 <= k < |orders| =>
      Turn(Elems(sts[k].candidates), Elems(orders[k]), sts[k + 1].closest))
  }

  /** What one round makes of the candidates. */
  lemma RoundOnePerId(target: Id, limit: nat, net: Network, st: State, order: seq<Contact>, st': State)
    requires IsRound(target, limit, net, st, order, st')
    ensures OnePerId(Elems(st'.candidates), Named(Elems(order), net))
  {
    ProcessAllOnePerId(Asked(st, limit), target, order, net, {});
    assert {} + Named(Elems(order), net) == Named(Elems(order), net);
  }

  lemma StartOnePerId(initial: seq<Contact>, target: Id)
    ensures OnePerId(Elems(Start(initial, target).candidates), Elems(initial))
  {
    UpsertAllOnePerId([], initial, target, {});
    assert {} + Elems(initial) == Elems(initial);
  }

  lemma {:induction false} RoundsKeep(initial: seq<Contact>, target: Id, limit: nat, net: Network,
                                      orders: seq<seq<Contact>>, sts: seq<State>, k: nat)
    requires Closed(net, initial) && Rounds(initial, target, limit, net, orders, sts) && k <= |orders|
    ensures Invariant(sts[k], target, limit, net)
    ensures sts[k].queried == AskedBefore(TurnsOf(orders, sts), k)
    ensures OnePerId(Elems(sts[k].candidates), HeardOf(TurnsOf(orders, sts), initial, net, k))
  {
    var turns := TurnsOf(orders, sts);
    if k == 0 {
      StartInvariant(initial, target, limit, net);
      StartOnePerId(initial, target);
    } else {
      var i := k - 1;
      assert IsRound(target, limit, net, sts[i], orders[i], sts[i + 1]);
      RoundsKeep(initial, target, limit, net, orders, sts, i);
      RoundInAnyOrder(sts[i], target, limit, net, initial, orders[i]);
      RoundOnePerId(target, limit, net, sts[i], orders[i], sts[k]);
    }
  }

  lemma RoundAsksNearest(initial: seq<Contact>, target: Id, limit: nat, net: Network,
                         orders: seq<seq<Contact>>, sts: seq<State>, k: nat)
    requires Closed(net, initial) && Rounds(initial, target, limit, net, orders, sts) && k < |orders|
    ensures MayAsk(TurnsOf(orders, sts), initial, net, k) && AsksNearest(TurnsOf(orders, sts), target, limit, k)
  {
    assert IsRound(target, limit, net, sts[k], orders[k], sts[k + 1]);
    RoundsKeep(initial, target, limit, net, orders, sts, k);
    BatchProperties(sts[k], target, limit, net);
    NonEmptyElems(sts[k].candidates);
  }

  lemma RoundKnowsClosest(initial: seq<Contact>, target: Id, limit: nat, net: Network,
                          orders: seq<seq<Contact>>, sts: seq<State>, k: nat)
    requires Closed(net, initial) && Rounds(initial, target, limit, net, orders, sts) && k < |orders|
    ensures KnowsClosest(TurnsOf(orders, sts), target, limit, net, k)
  {
    RoundsKeep(initial, target, limit, net, orders, sts, k + 1);
    TakeNearest(sts[k + 1].good, target, limit);
    assert Elems(sts[k + 1].good) == Responders(AskedBefore(TurnsOf(orders, sts), k + 1), net);
  }

  lemma RoundsAreHistory(initial: seq<Contact>, target: Id, limit: nat, net: Network,
                         orders: seq<seq<Contact>>, sts: seq<State>)
    requires Closed(net, initial) && Rounds(initial, target, limit, net, orders, sts)
    requires forall k :: 0 <= k < |orders| - 1 ==> sts[k + 1].closest != sts[k].closest
    ensures History(TurnsOf(orders, sts), initial, target, limit, net)
  {
    var turns := TurnsOf(orders, sts);
    forall k | 0 <= k < |turns|
      ensures MayAsk(turns, initial, net, k) && AsksNearest(turns, target, limit, k)
      ensures KnowsClosest(turns, target, limit, net, k)
    {
      RoundAsksNearest(initial, target, limit, net, orders, sts, k);
      RoundKnowsClosest(initial, target, limit, net, orders, sts, k);
    }
    forall k | 0 <= k < |turns| - 1 ensures HasNews(turns, k) {
      assert sts[k + 1].closest != sts[k].closest;
    }
  }

  /** The contact has answered with peers, possibly none. */
  ghost predicate Offers(net: Network, c: Contact) {
    c in net && net[c].Answered? && net[c].reply.peers.Some?
  }

  /** What a lookup reports that has asked these contacts: whom to drop, all peers it was
      told of, and as announce target the nearest contact that offered any, with its token. */
  ghost predicate Reports(st: State, asked: set<Contact>, target: Id, net: Network) {
    && st.queried == asked && st.dropped == asked - Responders(asked, net)
    && (forall p :: p in st.peers <==> exists c :: c in asked && Offers(net, c) && p in net[c].reply.peers.value)
    && (st.announce.None? <==> forall c :: c in asked ==> !Offers(net, c))
    && (st.announce.Some? ==>
          var (c, token) := st.announce.value;
          && c in asked && Offers(net, c) && net[c].reply.token == Some(token)
          && forall d :: d in asked && Offers(net, d) ==> Distance(target, c.id) <= Distance(target, d.id))
  }

  lemma InvariantReports(st: State, target: Id, limit: nat, net: Network)
    requires Invariant(st, target, limit, net)
    ensures Reports(st, st.queried, target, net)
  {
    forall p
      ensures p in st.peers <==> exists c :: c in st.queried && Offers(net, c) && p in net[c].reply.peers.value
    {
      if p in st.peers {
        var c :| c in st.queried && p in PeersOf(net[c]);
        assert Offers(net, c);
      }
      if c :| c in st.queried && Offers(net, c) && p in net[c].reply.peers.value {
        assert p in PeersOf(net[c]);
      }
    }
  }

  /** What is left when a history is over. */
  ghost predicate Leaves(turns: seq<Turn>, st: State, target: Id, net: Network) {
    st.closest == ClosestBefore(turns, |turns|) && Reports(st, AskedBefore(turns, |turns|), target, net)
  }

  /** Every lookup that does not panic has a history, in whatever order its answers
      arrive. */
  lemma EveryLookupHasAHistory(initial: seq<Contact>, target: Id, limit: nat, net: Network, st: State)
      returns (turns: seq<Turn>)
    requires Closed(net, initial) && Outcome(initial, target, limit, net, Ok(st))
    ensures History(turns, initial, target, limit, net) && IsOver(turns, initial, net) && Leaves(turns, st, target, net)
  {
    var orders: seq<seq<Contact>>, sts: seq<State> :|
      Trace(initial, target, limit, net, orders, sts) && Ends(sts[|orders|], target, limit, net, Ok(st));
    forall k | 0 <= k < |orders|
      ensures IsRound(target, limit, net, sts[k], orders[k], sts[k + 1]) && sts[k + 1].closest != sts[k].closest
    {
      assert Continues(sts[k], target, limit, net, orders[k], sts[k + 1]);
    }
    if order :| LastRound(sts[|orders|], target, limit, net, order, Ok(st)) {
      turns := LastTurn(initial, target, limit, net, orders, sts, order, st);
    } else {
      turns := TurnsOf(orders, sts);
      RoundsAreHistory(initial, target, limit, net, orders, sts);
      RoundsKeep(initial, target, limit, net, orders, sts, |orders|);
      NobodyHeard(HeardOf(turns, initial, net, |turns|));
      InvariantReports(st, target, limit, net);
    }
  }

  lemma NobodyHeard(all: set<Contact>)
    ensures OnePerId({}, all) ==> all == {}
  {
  }

  lemma RoundsSnoc(initial: seq<Contact>, target: Id, limit: nat, net: Network, orders: seq<seq<Contact>>,
                   sts: seq<State>, order: seq<Contact>, st: State)
    requires Rounds(initial, target, limit, net, orders, sts)
    requires IsRound(target, limit, net, sts[|orders|], order, st)
    ensures Rounds(initial, target, limit, net, orders + [order], sts + [st])
  {
    var orders', sts' := orders + [order], sts + [st];
    forall k | 0 <= k < |orders'| ensures IsRound(target, limit, net, sts'[k], orders'[k], sts'[k + 1]) {
      assert k < |orders| ==> IsRound(target, limit, net, sts[k], orders[k], sts[k + 1]);
    }
  }

  lemma LastTurn(initial: seq<Contact>, target: Id, limit: nat, net: Network, orders: seq<seq<Contact>>,
                 sts: seq<State>, order: seq<Contact>, st: State) returns (turns: seq<Turn>)
    requires Closed(net, initial) && Rounds(initial, target, limit, net, orders, sts)
    requires forall k :: 0 <= k < |orders| ==> sts[k + 1].closest != sts[k].closest
    requires LastRound(sts[|orders|], target, limit, net, order, Ok(st))
    ensures History(turns, initial, target, limit, net) && IsOver(turns, initial, net) && Leaves(turns, st, target, net)
  {
    var orders', sts' := orders + [order], sts + [st];
    var n := |orders|;
    assert orders' != [] && sts'[n] == sts[n] && sts'[n + 1] == st;
    RoundsSnoc(initial, target, limit, net, orders, sts, order, st);
    RoundsAreHistory(initial, target, limit, net, orders', sts');
    RoundsKeep(initial, target, limit, net, orders', sts', n + 1);
    InvariantReports(st, target, limit, net);
    turns := TurnsOf(orders', sts');
    assert turns[n].closest == st.closest && ClosestBefore(turns, n) == sts[n].closest;
  }

  // ---- Those never asked ----

  lemma AtTurn(turns: seq<Turn>, initial: seq<Contact>, target: Id, limit: nat, net: Network, k: nat)
    requires History(turns, initial, target, limit, net) && k < |turns|
    ensures AsksNearest(turns, target, limit, k) && KnowsClosest(turns, target, limit, net, k)
  {
  }

  lemma {:induction false} AskedLater(turns: seq<Turn>, j: nat, k: nat)
    requires j < k <= |turns|
    ensures turns[j].asked <= AskedBefore(turns, k)
  {
    if j + 1 < k {
      AskedLater(turns, j, k - 1);
    }
  }

  // Where all of `limit` contacts nearer than `d` are among `all`, so are the nearest of `all`.
  lemma FartherThanNearest(asked: set<Contact>, all: set<Contact>, closest: set<Contact>, target: Id, limit: nat,
                           d: Contact, c: Contact)
    requires |asked| == limit && asked <= all && NearestOf(closest, all, target, limit) && c in closest
    requires forall a :: a in asked ==> Distance(target, a.id) < Distance(target, d.id)
    ensures Distance(target, c.id) < Distance(target, d.id)
  {
    if Distance(target, c.id) >= Distance(target, d.id) {
      forall a | a in asked ensures a in closest {
        assert Distance(target, a.id) < Distance(target, c.id);
      }
      SubsetCard(asked + {c}, closest);
    }
  }

  /** Round `k` heard of the contact, but never asked it. */
  ghost predicate IsLeftOut(turns: seq<Turn>, k: nat, d: Contact)
    requires k < |turns|
  {
    d in turns[k].candidates && d !in AskedBefore(turns, k) && d !in turns[k].asked
  }

  ghost predicate AllAnswer(asked: set<Contact>, net: Network) {
    forall c :: c in asked ==> c in net && net[c].Answered?
  }

  /** Where everybody asked in a round has answered, the candidates it left out, unless
      asked before, are farther than everything the lookup returns. */
  lemma LeftOutIsFarther(turns: seq<Turn>, initial: seq<Contact>, target: Id, limit: nat, net: Network, j: nat,
                         d: Contact, c: Contact)
    requires History(turns, initial, target, limit, net) && j < |turns|
    requires AllAnswer(turns[j].asked, net)
    requires IsLeftOut(turns, j, d) && c in ClosestBefore(turns, |turns|)
    ensures Distance(target, c.id) < Distance(target, d.id)
  {
    var n: nat := |turns| - 1;
    assert j <= n < |turns| && c in turns[n].closest;
    AtTurn(turns, initial, target, limit, net, j);
    AtTurn(turns, initial, target, limit, net, n);
    LeftOut(turns, target, limit, net, j, n, d, c);
  }

  lemma LeftOut(turns: seq<Turn>, target: Id, limit: nat, net: Network, j: nat, n: nat, d: Contact, c: Contact)
    requires j <= n < |turns| && AsksNearest(turns, target, limit, j) && KnowsClosest(turns, target, limit, net, n)
    requires AllAnswer(turns[j].asked, net)
    requires IsLeftOut(turns, j, d) && c in turns[n].closest
    ensures Distance(target, c.id) < Distance(target, d.id)
  {
    var asked := turns[j].asked;
    AskedLater(turns, j, n + 1);
    FewerThanAll(asked, turns[j].candidates - AskedBefore(turns, j), d);
    FartherThanNearest(asked, Responders(AskedBefore(turns, n + 1), net), Elems(turns[n].closest), target, limit, d, c);
  }

  lemma FewerThanAll(part: set<Contact>, all: set<Contact>, d: Contact)
    requires part <= all && d in all - part
    ensures |part| < |all|
  {
    SubsetCard(part + {d}, all);
  }

  /** A last round that brought no news, although somebody answered, has left out nobody
      nearer than what is returned, and as many are returned as were wanted. */
  lemma NoNewsIsFinal(turns: seq<Turn>, initial: seq<Contact>, target: Id, limit: nat, net: Network,
                      a: Contact, d: Contact, c: Contact)
    requires History(turns, initial, target, limit, net) && turns != []
    requires var n := |turns| - 1;
             && !HasNews(turns, n)
             && a in Responders(turns[n].asked, net)
             && IsLeftOut(turns, n, d)
             && c in turns[n].closest
    ensures |turns[|turns| - 1].closest| == limit
    ensures Distance(target, c.id) < Distance(target, a.id) < Distance(target, d.id)
  {
    var n := |turns| - 1;
    AtTurn(turns, initial, target, limit, net, n);
    var all := Responders(AskedBefore(turns, n + 1), net);
    NotYetClosest(turns, initial, target, limit, net, a);
    FewerThanAll(Elems(turns[n].closest), all, a);
    TakeNearest(turns[n].closest, target, limit);
    DistinctCard(turns[n].closest);
  }

  lemma NotYetClosest(turns: seq<Turn>, initial: seq<Contact>, target: Id, limit: nat, net: Network, a: Contact)
    requires History(turns, initial, target, limit, net) && turns != []
    requires !HasNews(turns, |turns| - 1) && a in turns[|turns| - 1].asked
    ensures a !in turns[|turns| - 1].closest
  {
    var n := |turns| - 1;
    AtTurn(turns, initial, target, limit, net, n);
    if n > 0 {
      AtTurn(turns, initial, target, limit, net, n - 1);
      assert Elems(turns[n].closest) <= AskedBefore(turns, n);
    }
  }
}
