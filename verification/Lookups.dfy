/**
  The iterative node lookup (rust/bittorrent/dht/src/lookup.rs).

  The network is an oracle: a finite map from contacts to their answers.  No
  contact is asked twice, so one answer each is all that a run can observe.  The
  order in which the answers of a round arrive is left open.
 */
module Lookups {
  import opened Common
  import opened Sorting
  import opened NodeIds

  type Peer = nat
  type Token = nat

  /** A reply to `get_peers`; a reply to `find_node` has nodes only. */
  datatype Reply = Reply(token: Option<Token>, peers: Option<seq<Peer>>, nodes: Option<seq<Contact>>)

  datatype Answer = Answered(reply: Reply) | Failed

  type Network = map<Contact, Answer>

  // ---- A map from distances to contacts, as its values in key order ----

  ghost predicate Strict(m: seq<Contact>, target: Id) {
    forall i, j :: 0 <= i < j < |m| ==> Distance(target, m[i].id) < Distance(target, m[j].id)
  }

  predicate HasKey(m: seq<Contact>, target: Id, k: nat) {
    exists i :: 0 <= i < |m| && Distance(target, m[i].id) == k
  }

  function Upsert(m: seq<Contact>, c: Contact, target: Id): seq<Contact> {
    if m == [] || Distance(target, c.id) < Distance(target, m[0].id) then [c] + m
    else if Distance(target, c.id) == Distance(target, m[0].id) then [c] + m[1..]
    else [m[0]] + Upsert(m[1..], c, target)
  }

  function UpsertAll(m: seq<Contact>, cs: seq<Contact>, target: Id): seq<Contact>
    decreases |cs|
  {
    if cs == [] then m else UpsertAll(Upsert(m, cs[0], target), cs[1..], target)
  }

  ghost predicate Above(m: seq<Contact>, target: Id, k: nat) {
    forall i :: 0 <= i < |m| ==> k < Distance(target, m[i].id)
  }

  lemma {:induction false} UpsertAbove(m: seq<Contact>, c: Contact, target: Id, k: nat)
    requires Above(m, target, k) && k < Distance(target, c.id)
    ensures Above(Upsert(m, c, target), target, k)
  {
    if m != [] && Distance(target, c.id) > Distance(target, m[0].id) {
      UpsertAbove(m[1..], c, target, k);
    }
  }

  lemma {:induction false} UpsertStrict(m: seq<Contact>, c: Contact, target: Id)
    requires Strict(m, target)
    ensures Strict(Upsert(m, c, target), target)
  {
    if m != [] && Distance(target, c.id) > Distance(target, m[0].id) {
      UpsertStrict(m[1..], c, target);
      UpsertAbove(m[1..], c, target, Distance(target, m[0].id));
    }
  }

  /** The entry of the same distance, that is of the same id, is replaced. */
  lemma {:induction false} UpsertElems(m: seq<Contact>, c: Contact, target: Id, y: Contact)
    requires Strict(m, target)
    ensures y in Upsert(m, c, target) <==> y == c || (y in m && y.id != c.id)
  {
    if m != [] {
      if Distance(target, c.id) > Distance(target, m[0].id) {
        UpsertElems(m[1..], c, target, y);
      } else if Distance(target, c.id) == Distance(target, m[0].id) {
        DistanceIsUnidirectional(target, c.id, m[0].id);
        NotInTail(m, target, y);
      } else {
        NotInTail([c] + m, target, y);
      }
    }
  }

  lemma NotInTail(m: seq<Contact>, target: Id, y: Contact)
    requires Strict(m, target) && m != []
    ensures y in m[1..] ==> y.id != m[0].id
  {
  }

  /** A strictly ordered sequence is determined by its elements. */
  lemma {:induction false} StrictIsUnique(a: seq<Contact>, b: seq<Contact>, target: Id)
    requires Strict(a, target) && Strict(b, target)
    requires Elems(a) == Elems(b)
    ensures a == b
  {
    if a == [] {
      assert forall k :: 0 <= k < |b| ==> b[k] in Elems(b);
    } else {
      assert a[0] in Elems(b) && (b == [] || b[0] in Elems(a));
      StrictHead(a, b, target);
      forall y ensures y in Elems(a[1..]) <==> y in Elems(b[1..]) {
        StrictTail(a, target, y);
        StrictTail(b, target, y);
      }
      StrictIsUnique(a[1..], b[1..], target);
      assert a == [a[0]] + a[1..] && b == [b[0]] + b[1..];
    }
  }

  lemma StrictHead(a: seq<Contact>, b: seq<Contact>, target: Id)
    requires Strict(a, target) && Strict(b, target) && a != [] && b != []
    requires a[0] in Elems(b) && b[0] in Elems(a)
    ensures a[0] == b[0]
  {
    var i :| 0 <= i < |a| && a[i] == b[0];
    var j :| 0 <= j < |b| && b[j] == a[0];
  }

  lemma StrictTail(a: seq<Contact>, target: Id, y: Contact)
    requires Strict(a, target) && a != []
    ensures y in Elems(a[1..]) <==> y in Elems(a) && y != a[0]
  {
    NotInTail(a, target, y);
  }

  // ---- State and steps ----

  /** The variables of the lookup: the maps by distance, the nodes last reported as
      closest, the contacts asked so far, those dropped from the routing table, and
      the fields of the peer lookuper. */
  datatype State = State(
    candidates: seq<Contact>, good: seq<Contact>, closest: seq<Contact>,
    queried: set<Contact>, dropped: set<Contact>,
    peers: set<Peer>, announce: Option<(Contact, Token)>)

  /** The two ways a lookup panics. */
  datatype Failure = DuplicateGoodNode | MissingToken

  function NodesOf(a: Answer): seq<Contact> {
    if a.Answered? && a.reply.nodes.Some? then a.reply.nodes.value else []
  }

  function PeersOf(a: Answer): seq<Peer> {
    if a.Answered? && a.reply.peers.Some? then a.reply.peers.value else []
  }

  predicate HasPeers(a: Answer) {
    a.Answered? && a.reply.peers.Some?
  }

  predicate IsCloser(announce: Option<(Contact, Token)>, target: Id, c: Contact) {
    announce.None? || Distance(target, c.id) < Distance(target, announce.value.0.id)
  }

  /** Handling one answer. */
  function Process(st: State, target: Id, c: Contact, a: Answer): Result<State, Failure> {
    if a.Failed? then Ok(st.(dropped := st.dropped + {c}))
    else
      var moves := HasPeers(a) && IsCloser(st.announce, target, c);
      if moves && a.reply.token.None? then Err(MissingToken)
      else if HasKey(st.good, target, Distance(target, c.id)) then Err(DuplicateGoodNode)
      else
        Ok(st.(
          candidates := UpsertAll(st.candidates, NodesOf(a), target),
          good := Upsert(st.good, c, target),
          peers := st.peers + (set p | p in PeersOf(a)),
          announce := if moves then Some((c, a.reply.token.value)) else st.announce))
  }

  function ProcessAll(st: State, target: Id, order: seq<Contact>, net: Network): Result<State, Failure>
    requires Elems(order) <= net.Keys
    decreases |order|
  {
    if order == [] then Ok(st)
    else
      assert order[0] in Elems(order) && Elems(order[1..]) <= Elems(order);
      match Process(st, target, order[0], net[order[0]])
      case Err(e) => Err(e)
      case Ok(st') => ProcessAll(st', target, order[1..], net)
  }

  function NotIn(cs: seq<Contact>, seen: set<Contact>): seq<Contact> {
    if cs == [] then []
    else (if cs[0] in seen then [] else [cs[0]]) + NotIn(cs[1..], seen)
  }

  /** The candidates a round asks. */
  function Batch(st: State, limit: nat): seq<Contact> {
    Take(NotIn(st.candidates, st.queried), limit)
  }

  /** The state in which a round's answers start to arrive. */
  function Asked(st: State, limit: nat): State {
    st.(candidates := [], queried := st.queried + Elems(Batch(st, limit)))
  }

  function Start(initial: seq<Contact>, target: Id): State {
    State(UpsertAll([], initial, target), [], [], {}, {}, {}, None)
  }

  // ---- Assumptions about the network ----

  /** Whoever is mentioned can be asked. */
  ghost predicate Closed(net: Network, initial: seq<Contact>) {
    && Elems(initial) <= net.Keys
    && forall c :: c in net ==> Elems(NodesOf(net[c])) <= net.Keys
  }

  ghost predicate IdDeterminesEndpoint(cs: set<Contact>) {
    forall a, b :: a in cs && b in cs && a.id == b.id ==> a == b
  }

  ghost predicate PeersComeWithToken(net: Network) {
    forall c :: c in net && HasPeers(net[c]) ==> net[c].reply.token.Some?
  }

  // ---- What holds of the state once the contacts `done` have been handled ----

  ghost predicate IsAnnounce(announce: Option<(Contact, Token)>, done: set<Contact>, target: Id, net: Network)
    requires done <= net.Keys
  {
    && (announce.None? ==> forall c :: c in done ==> !HasPeers(net[c]))
    && (announce.Some? ==>
          && announce.value.0 in done
          && HasPeers(net[announce.value.0])
          && net[announce.value.0].reply.token == Some(announce.value.1)
          && forall c :: c in done && HasPeers(net[c]) ==>
               Distance(target, announce.value.0.id) <= Distance(target, c.id))
  }

  /** Everything but the candidates follows from what has been handled. */
  ghost predicate Consistent(st: State, done: set<Contact>, target: Id, net: Network) {
    && done <= net.Keys
    && Strict(st.good, target)
    && Elems(st.good) == (set c | c in done && net[c].Answered?)
    && st.dropped == (set c | c in done && net[c].Failed?)
    && st.peers == (set c, p | c in done && p in PeersOf(net[c]) :: p)
    && IsAnnounce(st.announce, done, target, net)
  }

  ghost predicate CandidatesOk(st: State, target: Id, net: Network) {
    Strict(st.candidates, target) && Elems(st.candidates) <= net.Keys
  }

  // ---- One answer ----

  lemma {:induction false} UpsertAllOk(m: seq<Contact>, cs: seq<Contact>, target: Id, known: set<Contact>)
    requires Strict(m, target) && Elems(m) <= known && Elems(cs) <= known
    ensures Strict(UpsertAll(m, cs, target), target) && Elems(UpsertAll(m, cs, target)) <= known
    ensures IdDeterminesEndpoint(known) ==> Elems(UpsertAll(m, cs, target)) == Elems(m) + Elems(cs)
    decreases |cs|
  {
    if cs != [] {
      var m' := Upsert(m, cs[0], target);
      assert cs[0] in Elems(cs) && Elems(cs) == {cs[0]} + Elems(cs[1..]);
      UpsertStrict(m, cs[0], target);
      forall y ensures y in m' <==> y == cs[0] || (y in m && y.id != cs[0].id) {
        UpsertElems(m, cs[0], target, y);
      }
      UpsertAllOk(m', cs[1..], target, known);
    }
  }

  lemma HasKeyMeans(m: seq<Contact>, target: Id, c: Contact)
    ensures HasKey(m, target, Distance(target, c.id)) <==> exists y :: y in m && y.id == c.id
  {
    if HasKey(m, target, Distance(target, c.id)) {
      var i :| 0 <= i < |m| && Distance(target, m[i].id) == Distance(target, c.id);
      DistanceIsUnidirectional(target, m[i].id, c.id);
      assert m[i] in m;
    }
  }

  lemma AnnounceKeeps(announce: Option<(Contact, Token)>, done: set<Contact>, target: Id, net: Network, c: Contact)
    requires done <= net.Keys && c in net && IsAnnounce(announce, done, target, net)
    requires HasPeers(net[c]) && IsCloser(announce, target, c) ==> net[c].reply.token.Some?
    ensures var announce' := if HasPeers(net[c]) && IsCloser(announce, target, c)
                             then Some((c, net[c].reply.token.value)) else announce;
            IsAnnounce(announce', done + {c}, target, net)
  {
  }

  lemma GoodGrows(good: seq<Contact>, done: set<Contact>, target: Id, net: Network, c: Contact)
    requires done <= net.Keys && c in net && c !in done && net[c].Answered? && Strict(good, target)
    requires Elems(good) == (set d | d in done && net[d].Answered?)
    requires !HasKey(good, target, Distance(target, c.id))
    ensures Strict(Upsert(good, c, target), target)
    ensures Elems(Upsert(good, c, target)) == (set d | d in done + {c} && net[d].Answered?)
  {
    HasKeyMeans(good, target, c);
    UpsertStrict(good, c, target);
    forall y ensures y in Elems(Upsert(good, c, target)) <==> y in Elems(good) || y == c {
      UpsertElems(good, c, target, y);
    }
  }

  lemma ProcessOk(st: State, done: set<Contact>, target: Id, net: Network, c: Contact, st': State)
    requires Consistent(st, done, target, net) && c in net && c !in done
    requires Process(st, target, c, net[c]) == Ok(st')
    ensures Consistent(st', done + {c}, target, net)
  {
    AnnounceKeeps(st.announce, done, target, net, c);
    PeersGrow(done, c, net);
    if net[c].Answered? {
      GoodGrows(st.good, done, target, net, c);
    }
  }

  /** What handling one answer establishes, and why it would panic. */
  lemma ProcessKeeps(st: State, done: set<Contact>, target: Id, net: Network, c: Contact)
    requires Consistent(st, done, target, net) && c in net && c !in done
    ensures match Process(st, target, c, net[c])
            case Ok(st') =>
              && Consistent(st', done + {c}, target, net)
              && st'.queried == st.queried && st'.closest == st.closest
              && st'.candidates == UpsertAll(st.candidates, NodesOf(net[c]), target)
            case Err(DuplicateGoodNode) => !IdDeterminesEndpoint(net.Keys)
            case Err(MissingToken) => !PeersComeWithToken(net)
  {
    match Process(st, target, c, net[c]) {
      case Ok(st') =>
        ProcessOk(st, done, target, net, c, st');
      case Err(DuplicateGoodNode) =>
        HasKeyMeans(st.good, target, c);
        var y :| y in st.good && y.id == c.id;
        assert y in Elems(st.good);
      case Err(MissingToken) =>
    }
  }

  lemma PeersGrow(done: set<Contact>, c: Contact, net: Network)
    requires done <= net.Keys && c in net
    ensures (set d, p | d in done + {c} && p in PeersOf(net[d]) :: p)
              == (set d, p | d in done && p in PeersOf(net[d]) :: p) + (set p | p in PeersOf(net[c]))
  {
  }

  // ---- One round ----

  ghost function AllNodes(done: set<Contact>, net: Network): set<Contact>
    requires done <= net.Keys
  {
    set c, n | c in done && n in NodesOf(net[c]) :: n
  }

  ghost predicate Clean(net: Network) {
    IdDeterminesEndpoint(net.Keys) && PeersComeWithToken(net)
  }

  /** `order` is an order in which the answers of the contacts `batch` may arrive. */
  ghost predicate IsOrderOf(order: seq<Contact>, batch: set<Contact>) {
    Distinct(order) && Elems(order) == batch
  }

  lemma ProcessCandidates(st: State, done: set<Contact>, target: Id, net: Network, initial: seq<Contact>, c: Contact)
    requires Consistent(st, done, target, net) && CandidatesOk(st, target, net) && Closed(net, initial)
    requires c in net && c !in done && Process(st, target, c, net[c]).Ok?
    ensures var st' := Process(st, target, c, net[c]).value;
            && CandidatesOk(st', target, net)
            && (IdDeterminesEndpoint(net.Keys) ==>
                  Elems(st'.candidates) == Elems(st.candidates) + Elems(NodesOf(net[c])))
  {
    ProcessKeeps(st, done, target, net, c);
    UpsertAllOk(st.candidates, NodesOf(net[c]), target, net.Keys);
  }

  /** Whatever the order of the answers, the round ends consistent or names the
      assumption that the network breaks. */
  lemma {:induction false} ProcessAllKeeps(st: State, done: set<Contact>, target: Id, net: Network,
                                           initial: seq<Contact>, order: seq<Contact>)
    requires Consistent(st, done, target, net) && CandidatesOk(st, target, net) && Closed(net, initial)
    requires Elems(order) <= net.Keys && Distinct(order) && Elems(order) !! done
    ensures match ProcessAll(st, target, order, net)
            case Ok(st') =>
              && Consistent(st', done + Elems(order), target, net)
              && CandidatesOk(st', target, net)
              && st'.queried == st.queried && st'.closest == st.closest
              && (IdDeterminesEndpoint(net.Keys) ==>
                    Elems(st'.candidates) == Elems(st.candidates) + AllNodes(Elems(order), net))
            case Err(DuplicateGoodNode) => !IdDeterminesEndpoint(net.Keys)
            case Err(MissingToken) => !PeersComeWithToken(net)
    decreases |order|
  {
    if order == [] {
      assert done + Elems(order) == done;
    } else {
      var c, rest := order[0], order[1..];
      HeadAndTail(order);
      ProcessKeeps(st, done, target, net, c);
      if Process(st, target, c, net[c]).Ok? {
        ProcessCandidates(st, done, target, net, initial, c);
        ProcessAllKeeps(Process(st, target, c, net[c]).value, done + {c}, target, net, initial, rest);
        assert done + {c} + Elems(rest) == done + Elems(order);
        AllNodesSplit(c, Elems(rest), net);
      }
    }
  }

  lemma HeadAndTail(order: seq<Contact>)
    requires order != [] && Distinct(order)
    ensures Elems(order) == {order[0]} + Elems(order[1..])
    ensures order[0] !in Elems(order[1..]) && Distinct(order[1..])
  {
    assert order == [order[0]] + order[1..];
  }

  lemma AllNodesSplit(c: Contact, rest: set<Contact>, net: Network)
    requires c in net && rest <= net.Keys
    ensures AllNodes({c} + rest, net) == Elems(NodesOf(net[c])) + AllNodes(rest, net)
  {
  }

  /** States that agree on what has been handled and on the candidates are equal. */
  lemma SameState(a: State, b: State, done: set<Contact>, target: Id, net: Network)
    requires Consistent(a, done, target, net) && Consistent(b, done, target, net)
    requires Strict(a.candidates, target) && Strict(b.candidates, target)
    requires Elems(a.candidates) == Elems(b.candidates)
    requires a.queried == b.queried && a.closest == b.closest
    requires IdDeterminesEndpoint(net.Keys)
    ensures a == b
  {
    StrictIsUnique(a.good, b.good, target);
    StrictIsUnique(a.candidates, b.candidates, target);
    if a.announce.Some? && b.announce.Some? {
      DistanceIsUnidirectional(target, a.announce.value.0.id, b.announce.value.0.id);
    }
  }

  /** The state after a round does not depend on the order of the answers. */
  lemma OrderIsIrrelevant(st: State, done: set<Contact>, target: Id, net: Network, initial: seq<Contact>,
                          order: seq<Contact>, other: seq<Contact>)
    requires Consistent(st, done, target, net) && CandidatesOk(st, target, net) && Closed(net, initial)
    requires Clean(net) && Elems(order) <= net.Keys && Elems(order) !! done
    requires Distinct(order) && IsOrderOf(other, Elems(order))
    ensures ProcessAll(st, target, order, net).Ok?
    ensures ProcessAll(st, target, order, net) == ProcessAll(st, target, other, net)
  {
    ProcessAllKeeps(st, done, target, net, initial, order);
    ProcessAllKeeps(st, done, target, net, initial, other);
    var a, b := ProcessAll(st, target, order, net), ProcessAll(st, target, other, net);
    assert a.Ok? && b.Ok?;
    SameState(a.value, b.value, done + Elems(order), target, net);
  }

  lemma {:induction false} ProcessAppend(st: State, target: Id, net: Network, order: seq<Contact>, c: Contact)
    requires Elems(order) <= net.Keys && c in net
    ensures Elems(order + [c]) == Elems(order) + {c}
    ensures ProcessAll(st, target, order + [c], net) ==
              match ProcessAll(st, target, order, net)
              case Err(e) => Err(e)
              case Ok(st') => Process(st', target, c, net[c])
    decreases |order|
  {
    if order == [] {
      assert order + [c] == [c] && [c][1..] == [];
    } else {
      assert (order + [c])[1..] == order[1..] + [c] && (order + [c])[0] == order[0];
      assert order[0] in Elems(order) && Elems(order[1..]) <= Elems(order);
      if Process(st, target, order[0], net[order[0]]).Ok? {
        ProcessAppend(Process(st, target, order[0], net[order[0]]).value, target, net, order[1..], c);
      }
    }
  }
}
