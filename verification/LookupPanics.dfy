/** Exactly when a lookup can panic (rust/bittorrent/dht/src/lookup.rs), whatever the
    answers and the order of their arrival. */
module LookupPanics {
  import opened Common
  import opened Sorting
  import opened NodeIds
  import opened Lookups
  import opened LookupRuns

  // ---- When the assertion about good nodes fires ----

  /** No lookup over these contacts finds a good node twice, whatever they answer and in
      whatever order. */
  ghost predicate NeverDuplicate(known: set<Contact>, target: Id, limit: nat) {
    forall net: Network, initial: seq<Contact> :: net.Keys == known && Closed(net, initial) ==>
      !Outcome(initial, target, limit, net, Err(DuplicateGoodNode))
  }

  // A lookup that asks for nothing does not panic.
  lemma NothingAsked(initial: seq<Contact>, target: Id, net: Network, f: Failure)
    ensures !Outcome(initial, target, 0, net, Err(f))
  {
    forall st, order | MayArrive(st, 0, net, order) ensures RoundIn(st, target, 0, net, order).Ok? {
      assert Batch(st, 0) == [] && Elems(Batch(st, 0)) == {};
      NonEmptyElems(order);
    }
  }

  /** `a` names `b`, `b` answers, nobody else does. */
  function TwoFaced(known: set<Contact>, a: Contact, b: Contact): Network {
    map c | c in known ::
      if c == a then Answered(Reply(None, None, Some([b])))
      else if c == b then Answered(Reply(None, None, None))
      else Failed
  }

  lemma FirstBatch(a: Contact, target: Id, limit: nat)
    requires limit > 0
    ensures Batch(Start([a], target), limit) == [a] && Elems([a]) == {a}
    ensures Asked(Start([a], target), limit) == State([], [], [], {a}, {}, {}, None)
    ensures Start([a], target).candidates == [a]
  {
    assert UpsertAll([], [a], target) == [a];
    assert NotIn([a], {}) == [a] && Take([a], limit) == [a];
  }

  lemma FirstRound(a: Contact, b: Contact, target: Id, limit: nat, net: Network)
    requires limit > 0 && a in net && net[a] == Answered(Reply(None, None, Some([b])))
    ensures Batch(Start([a], target), limit) == [a] && Elems([a]) == {a}
    ensures Round(Start([a], target), target, limit, net) == Ok(State([b], [a], [a], {a}, {}, {}, None))
  {
    FirstBatch(a, target, limit);
    var asked := State([], [], [], {a}, {}, {}, None);
    assert UpsertAll([], [b], target) == [b];
    assert (set p | p in PeersOf(net[a])) == {};
    var s1 := Process(asked, target, a, net[a]).value;
    assert s1 == State([b], [a], [], {a}, {}, {}, None);
    assert ProcessAll(asked, target, [a], net) == ProcessAll(s1, target, [], net);
    assert Take([a], limit) == [a];
  }

  lemma SecondRound(a: Contact, b: Contact, target: Id, limit: nat, net: Network)
    requires limit > 0 && b in net && b != a && a.id == b.id && net[b] == Answered(Reply(None, None, None))
    ensures Elems(Batch(State([b], [a], [a], {a}, {}, {}, None), limit)) <= net.Keys
    ensures Round(State([b], [a], [a], {a}, {}, {}, None), target, limit, net) == Err(DuplicateGoodNode)
  {
    var s1 := State([b], [a], [a], {a}, {}, {}, None);
    assert NotIn([b], {a}) == [b] && Batch(s1, limit) == [b];
    assert Distance(target, s1.good[0].id) == Distance(target, b.id);
    assert Process(Asked(s1, limit), target, b, net[b]) == Err(DuplicateGoodNode);
  }

  lemma TwoFacedFails(known: set<Contact>, a: Contact, b: Contact, target: Id, limit: nat)
    requires a in known && b in known && a != b && a.id == b.id && limit > 0
    ensures Closed(TwoFaced(known, a, b), [a])
    ensures Expected([a], target, limit, TwoFaced(known, a, b)) == Err(DuplicateGoodNode)
  {
    var net := TwoFaced(known, a, b);
    StartInvariant([a], target, limit, net);
    FirstRound(a, b, target, limit, net);
    SecondRound(a, b, target, limit, net);
    RoundKeeps(Start([a], target), target, limit, net, [a]);
    var s1 := State([b], [a], [a], {a}, {}, {}, None);
    assert LookupFrom(Start([a], target), target, limit, net, [a]) == LookupFrom(s1, target, limit, net, [a]);
  }

  /** The assertion is safe exactly when an id determines its endpoint (or when
      lookups ask for nothing). */
  lemma DuplicateExactlyWhenAmbiguous(known: set<Contact>, target: Id, limit: nat)
    ensures NeverDuplicate(known, target, limit) <==> limit == 0 || IdDeterminesEndpoint(known)
  {
    if limit == 0 || IdDeterminesEndpoint(known) {
      forall net: Network, initial: seq<Contact> | net.Keys == known && Closed(net, initial)
        ensures !Outcome(initial, target, limit, net, Err(DuplicateGoodNode))
      {
        if limit == 0 {
          NothingAsked(initial, target, net, DuplicateGoodNode);
        } else if Outcome(initial, target, limit, net, Err(DuplicateGoodNode)) {
          OutcomeKeeps(initial, target, limit, net, Err(DuplicateGoodNode));
        }
      }
    } else {
      var a, b :| a in known && b in known && a.id == b.id && a != b;
      TwoFacedFails(known, a, b, target, limit);
      ExpectedIsOutcome([a], target, limit, TwoFaced(known, a, b));
    }
  }

  // ---- When a missing token is fatal ----

  /** Only these contacts reply with peers and no token. */
  ghost predicate OmitsOnly(net: Network, omit: set<Contact>) {
    forall c :: c in net && HasPeers(net[c]) && net[c].reply.token.None? ==> c in omit
  }

  /** No lookup over these contacts panics on a missing token, whatever they answer and in
      whatever order, as long as only those in `omit` leave it out. */
  ghost predicate NeverTokenless(known: set<Contact>, omit: set<Contact>, target: Id, limit: nat) {
    forall net: Network, initial: seq<Contact> :: net.Keys == known && Closed(net, initial) && OmitsOnly(net, omit) ==>
      !Outcome(initial, target, limit, net, Err(MissingToken))
  }

  /** `a` replies with peers and no token, nobody else replies. */
  function PeersOnly(known: set<Contact>, a: Contact): Network {
    map c | c in known :: if c == a then Answered(Reply(None, Some([]), None)) else Failed
  }

  /** A lookup that starts at such a contact panics. */
  lemma PeersOnlyFails(known: set<Contact>, a: Contact, target: Id, limit: nat)
    requires a in known && limit > 0
    ensures Closed(PeersOnly(known, a), [a])
    ensures Expected([a], target, limit, PeersOnly(known, a)) == Err(MissingToken)
  {
    var net := PeersOnly(known, a);
    StartInvariant([a], target, limit, net);
    FirstBatch(a, target, limit);
    var st := Start([a], target);
    assert Process(Asked(st, limit), target, a, net[a]) == Err(MissingToken);
    assert Round(st, target, limit, net) == Err(MissingToken);
  }

  /** The token may be unwrapped safely exactly when nobody leaves it out (or when lookups
      ask for nothing). */
  lemma TokenlessExactlyWhenOmitted(known: set<Contact>, omit: set<Contact>, target: Id, limit: nat)
    requires omit <= known
    ensures NeverTokenless(known, omit, target, limit) <==> limit == 0 || omit == {}
  {
    if limit == 0 || omit == {} {
      forall net: Network, initial: seq<Contact> | net.Keys == known && Closed(net, initial) && OmitsOnly(net, omit)
        ensures !Outcome(initial, target, limit, net, Err(MissingToken))
      {
        if limit == 0 {
          NothingAsked(initial, target, net, MissingToken);
        } else if Outcome(initial, target, limit, net, Err(MissingToken)) {
          OutcomeKeeps(initial, target, limit, net, Err(MissingToken));
        }
      }
    } else {
      var a :| a in omit;
      PeersOnlyFails(known, a, target, limit);
      ExpectedIsOutcome([a], target, limit, PeersOnly(known, a));
    }
  }

  /** A contact whose reply moves the announce target without a token for it. */
  predicate Tokenless(announce: Option<(Contact, Token)>, target: Id, c: Contact, a: Answer) {
    HasPeers(a) && a.reply.token.None? && IsCloser(announce, target, c)
  }

  lemma {:induction false} MissingTokenComesFrom(st: State, target: Id, net: Network, order: seq<Contact>)
      returns (c: Contact)
    requires Elems(order) <= net.Keys && ProcessAll(st, target, order, net) == Err(MissingToken)
    ensures c in order && c in net && Tokenless(st.announce, target, c, net[c])
    decreases |order|
  {
    c := order[0];
    assert c in Elems(order) && Elems(order[1..]) <= Elems(order);
    if !Tokenless(st.announce, target, c, net[c]) {
      c := MissingTokenComesFrom(Process(st, target, c, net[c]).value, target, net, order[1..]);
    }
  }

  /** In some order of arrival the round panics on a missing token, exactly when
      some contact of the batch is tokenless at the start of the round. */
  lemma TokenPanicExactly(st: State, target: Id, net: Network, batch: seq<Contact>)
    requires Elems(batch) <= net.Keys && Distinct(batch)
    ensures (exists order ::
               && IsOrderOf(order, Elems(batch))
               && ProcessAll(st, target, order, net) == Err(MissingToken))
            <==> exists c :: c in batch && c in net && Tokenless(st.announce, target, c, net[c])
  {
    if order :| IsOrderOf(order, Elems(batch)) && ProcessAll(st, target, order, net) == Err(MissingToken) {
      var c := MissingTokenComesFrom(st, target, net, order);
      assert c in Elems(order);
    }
    if i :| 0 <= i < |batch| && batch[i] in net && Tokenless(st.announce, target, batch[i], net[batch[i]]) {
      var order := [batch[i]] + batch[..i] + batch[i + 1..];
      MovedToFront(batch, i);
      assert Process(st, target, order[0], net[order[0]]) == Err(MissingToken);
    }
  }

  lemma MovedToFront(batch: seq<Contact>, i: nat)
    requires i < |batch| && Distinct(batch)
    ensures IsOrderOf([batch[i]] + batch[..i] + batch[i + 1..], Elems(batch))
  {
    var order := [batch[i]] + batch[..i] + batch[i + 1..];
    assert batch == batch[..i] + [batch[i]] + batch[i + 1..];
    assert forall k :: 0 <= k < |order| ==> order[k] == batch[if k == 0 then i else if k <= i then k - 1 else k];
  }
}
