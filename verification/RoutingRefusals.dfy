/** When the routing table refuses a contact and when it splits a leaf, told from the stored
    contacts alone (rust/bittorrent/dht/src/routing.rs). */
module RoutingRefusals {
  import opened Common
  import opened NodeIds
  import opened KBuckets
  import opened RoutingTrees
  import opened RoutingRuns

  /** The number of leading bits that two ids share. */
  function CommonPrefix(a: seq<bool>, b: seq<bool>): (n: nat)
    ensures n <= |a| && n <= |b| && a[..n] == b[..n]
    ensures n < |a| && n < |b| ==> a[n] != b[n]
  {
    if a == [] || b == [] || a[0] != b[0] then 0
    else
      var n := CommonPrefix(a[1..], b[1..]);
      assert a[..n + 1] == [a[0]] + a[1..][..n] && b[..n + 1] == [b[0]] + b[1..][..n];
      n + 1
  }

  /** The stored items that share the first `n` bits of an id. */
  function Sharing(items: set<Item>, id: Id, n: nat): set<Item>
    requires n <= ID_BITS
  {
    set y | y in items && id[..n] <= y.contact.id
  }

  /** The candidate is not our own id, and a whole bucket of stored contacts shares one bit
      more with it than we do. */
  ghost predicate Crowded(self: Id, max: nat, items: set<Item>, id: Id) {
    id != self && |Sharing(items, id, CommonPrefix(id, self) + 1)| >= max
  }

  lemma PrefixOfBoth(path: seq<bool>, id: Id, self: Id)
    requires path <= id
    ensures path <= self <==> |path| <= CommonPrefix(id, self)
  {
    var n := CommonPrefix(id, self);
    if |path| <= n {
      assert path == id[..n][..|path|] == self[..n][..|path|];
      assert self[..n][..|path|] == self[..|path|];
    } else {
      assert path[n] == id[n];
    }
  }

  lemma SharingIsPath(path: seq<bool>, id: Id)
    requires path <= id
    ensures id[..|path|] == path
  {
  }

  // In a leaf that may not split, the path is one bit longer than what we share.
  lemma {:induction false} ForeignPath(t: Tree, prefix: seq<bool>, self: Id, max: nat, path: seq<bool>)
    requires WellFormed(t, prefix, self, max) && IsPath(t, path) && path != []
    ensures prefix + path[..|path| - 1] <= self
    decreases |path|
  {
    if |path| == 1 {
      assert prefix + path[..0] == prefix;
    } else {
      ChildWellFormed(t, prefix, self, max, path[0]);
      ForeignPath(Child(t, path[0]), prefix + [path[0]], self, max, path[1..]);
      assert prefix + [path[0]] + path[1..][..|path| - 2] == prefix + path[..|path| - 1];
    }
  }

  lemma {:induction false} ItemSetCard(items: seq<Item>)
    requires DistinctIds(items)
    ensures |ItemSet(items)| == |items|
  {
    if items != [] {
      ItemSetCard(items[1..]);
      assert items == [items[0]] + items[1..];
      assert items[0] !in items[1..];
      assert ItemSet(items) == {items[0]} + ItemSet(items[1..]);
    }
  }

  // The items of the leaf at the end of an id's path are those that share the path.
  lemma LeafIsSharing(t: Tree, self: Id, max: nat, id: Id, path: seq<bool>)
    requires WellFormed(t, [], self, max) && IsPath(t, path) && Sub(t, path).Leaf? && path <= id
    ensures |path| <= ID_BITS
    ensures Sharing(Elements(t), id, |path|) == ItemSet(Sub(t, path).bucket.items)
    ensures |Sharing(Elements(t), id, |path|)| == |Sub(t, path).bucket.items|
  {
    SubWellFormed(t, [], self, max, path);
    assert [] + path == path;
    SharingIsPath(path, id);
    forall y ensures y in Sharing(Elements(t), id, |path|) <==> y in Elements(Sub(t, path)) {
      PutElements(t, [], self, max, path, Sub(t, path), y);
    }
    ItemSetCard(Sub(t, path).bucket.items);
  }

  lemma SharingShrinks(items: set<Item>, id: Id, m: nat, n: nat)
    requires m <= n <= ID_BITS
    ensures |Sharing(items, id, n)| <= |Sharing(items, id, m)|
  {
    forall y | y in Sharing(items, id, n) ensures y in Sharing(items, id, m) {
      assert id[..m] == id[..n][..m];
    }
    SubsetCard(Sharing(items, id, n), Sharing(items, id, m));
  }

  // A leaf off our own path hangs right where the id leaves it.
  lemma LeavesHere(self: Id, max: nat, g: Tree, id: Id, path: seq<bool>)
    requires WellFormed(g, [], self, max) && IsPath(g, path) && path <= id && !(path <= self)
    ensures id != self && |path| == CommonPrefix(id, self) + 1
  {
    PrefixOfBoth(path, id, self);
    assert path != [];
    ForeignPath(g, [], self, max, path);
    var parent := path[..|path| - 1];
    assert [] + parent == parent;
    PrefixOfBoth(parent, id, self);
  }

  // A leaf on our own path that need not split has room, and holds all that share more.
  lemma RoomHere(self: Id, max: nat, items: set<Item>, id: Id, path: seq<bool>)
    requires path <= id && path <= self && |path| <= ID_BITS && |Sharing(items, id, |path|)| < max
    ensures !Crowded(self, max, items, id)
  {
    PrefixOfBoth(path, id, self);
    if id != self {
      SharingShrinks(items, id, |path|, CommonPrefix(id, self) + 1);
    }
  }

  lemma FullOnOurPath(self: Id, max: nat, g: Tree, id: Id, path: seq<bool>)
    requires WellFormed(g, [], self, max) && IsPath(g, path) && Sub(g, path).Leaf? && path <= id && path <= self
    requires |Sub(g, path).bucket.items| < max
    ensures !Crowded(self, max, Elements(g), id)
  {
    LeafIsSharing(g, self, max, id, path);
    RoomHere(self, max, Elements(g), id, path);
  }

  lemma FullElsewhere(self: Id, max: nat, g: Tree, id: Id, path: seq<bool>)
    requires WellFormed(g, [], self, max) && IsPath(g, path) && Sub(g, path).Leaf? && path <= id && !(path <= self)
    ensures |Sub(g, path).bucket.items| >= max <==> Crowded(self, max, Elements(g), id)
  {
    LeafIsSharing(g, self, max, id, path);
    LeavesHere(self, max, g, id, path);
  }

  // The leaf that the id reaches once all splits are made.
  lemma FullExactly(self: Id, max: nat, g: Tree, id: Id, path: seq<bool>)
    requires WellFormed(g, [], self, max) && IsPath(g, path) && Sub(g, path).Leaf? && path <= id
    requires !NeedsSplit(Sub(g, path))
    ensures |Sub(g, path).bucket.items| >= max <==> Crowded(self, max, Elements(g), id)
  {
    if path <= self {
      SubWellFormed(g, [], self, max, path);
      assert [] + path == path;
      FullOnOurPath(self, max, g, id, path);
    } else {
      FullElsewhere(self, max, g, id, path);
    }
  }

  /** Refusal, told from the stored contacts: the shape of the tree does not matter. */
  lemma InsertRefusedExactly(self: Id, max: nat, t: Tree, c: Item, t': Tree, r: Result<(), Full>)
    requires WellFormed(t, [], self, max) && max >= 3 && InsertStep(self, t, c, t', r)
    ensures r.Err? <==> Crowded(self, max, Elements(t), c.contact.id)
  {
    var id := c.contact.id;
    GrowWellFormed(t, [], self, max, id);
    GrowEnds(t, 0, id, self);
    assert id[0..] == id;
    var g := Grow(t, 0, id, self).value;
    var path := Walk(g, id).value;
    SubWellFormed(g, [], self, max, path);
    FullExactly(self, max, g, id, path);
  }

  /** So in any two runs that have stored the same contacts, the same candidates are
      accepted. */
  lemma OnlyContactsMatter(self: Id, max: nat, opsA: seq<Op>, tsA: seq<Tree>, i: nat,
                           opsB: seq<Op>, tsB: seq<Tree>, j: nat,
                           c: Item, a: Tree, ra: Result<(), Full>, b: Tree, rb: Result<(), Full>)
    requires max >= 3 && Run(self, max, opsA, tsA) && Run(self, max, opsB, tsB) && i < |tsA| && j < |tsB|
    requires Elements(tsA[i]) == Elements(tsB[j])
    requires InsertStep(self, tsA[i], c, a, ra) && InsertStep(self, tsB[j], c, b, rb)
    ensures ra.Ok? <==> rb.Ok?
  {
    RunWellFormed(self, max, opsA, tsA, i);
    RunWellFormed(self, max, opsB, tsB, j);
    InsertRefusedExactly(self, max, tsA[i], c, a, ra);
    InsertRefusedExactly(self, max, tsB[j], c, b, rb);
  }

  // ---- Splits ----

  /** The stored items under a prefix. */
  function ItemsUnder(items: set<Item>, prefix: seq<bool>): set<Item> {
    set y | y in items && prefix <= y.contact.id
  }

  ghost predicate HasBranch(t: Tree, path: seq<bool>) {
    IsPath(t, path) && Sub(t, path).Branch?
  }

  lemma FullLeaf(t: Tree, prefix: seq<bool>, self: Id, max: nat)
    requires WellFormed(t, prefix, self, max) && NeedsSplit(t)
    ensures |ItemsUnder(Elements(t), prefix)| >= max
  {
    ItemSetCard(t.bucket.items);
    forall y | y in Elements(t) ensures prefix <= y.contact.id {
      ElementsUnder(t, prefix, self, max, y);
    }
    assert ItemsUnder(Elements(t), prefix) == Elements(t);
  }

  // A branch that growing made lies on the path of the id.
  lemma OnThePath(t: Tree, d: nat, id: Id, self: Id, q: seq<bool>)
    requires d < ID_BITS && Grow(t, d, id, self).Some? && (t.Branch? || NeedsSplit(t)) && q != []
    requires HasBranch(Grow(t, d, id, self).value, q) && !HasBranch(t, q)
    ensures q[0] == id[d]
    ensures var u := if NeedsSplit(t) then SplitLeaf(t, d, self) else t;
            && HasBranch(Grow(Child(u, id[d]), d + 1, id, self).value, q[1..])
            && !HasBranch(Child(u, id[d]), q[1..])
  {
    var u := if NeedsSplit(t) then SplitLeaf(t, d, self) else t;
    var g := Grow(t, d, id, self).value;
    assert HasBranch(Child(g, q[0]), q[1..]);
    assert q[0] != id[d] ==> Child(g, q[0]) == Child(u, q[0]);
    assert t.Branch? ==> !HasBranch(Child(t, q[0]), q[1..]);
  }

  /** An insertion splits no leaf that has room: wherever it leaves a branch that was not
      there, a whole bucket of stored contacts shares that prefix. */
  lemma {:induction false} SplitsOnlyFull(t: Tree, prefix: seq<bool>, self: Id, max: nat, id: Id, q: seq<bool>)
    requires WellFormed(t, prefix, self, max) && prefix <= id && max >= 3
    requires Grow(t, |prefix|, id, self).Some?
    requires HasBranch(Grow(t, |prefix|, id, self).value, q) && !HasBranch(t, q)
    ensures |ItemsUnder(Elements(t), prefix + q)| >= max
    decreases |q|
  {
    var d := |prefix|;
    if q == [] {
      assert prefix + q == prefix;
      FullLeaf(t, prefix, self, max);
    } else {
      var u := if NeedsSplit(t) then SplitLeaf(t, d, self) else t;
      OnThePath(t, d, id, self, q);
      PathJoin(prefix, q);
      if NeedsSplit(t) {
        SplitWellFormed(t, prefix, self, max);
      }
      ChildWellFormed(u, prefix, self, max, id[d]);
      PrefixStep(prefix, id);
      SplitsOnlyFull(Child(u, id[d]), prefix + [id[d]], self, max, id, q[1..]);
      MoreUnder(Elements(Child(u, id[d])), Elements(t), prefix + q);
    }
  }

  lemma PathJoin(prefix: seq<bool>, q: seq<bool>)
    requires q != []
    ensures prefix + [q[0]] + q[1..] == prefix + q
  {
  }

  lemma MoreUnder(a: set<Item>, b: set<Item>, prefix: seq<bool>)
    requires a <= b
    ensures |ItemsUnder(a, prefix)| <= |ItemsUnder(b, prefix)|
  {
    SubsetCard(ItemsUnder(a, prefix), ItemsUnder(b, prefix));
  }
}
