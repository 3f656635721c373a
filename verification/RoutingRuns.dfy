/**
  The operations of the routing table as steps between trees, and what every run
  of them keeps (rust/bittorrent/dht/src/routing.rs).
 */
module RoutingRuns {
  import opened Common
  import opened NodeIds
  import opened KBuckets
  import opened RoutingTrees

  datatype Op = InsertOp(item: Item) | MustInsertOp(item: Item) | RemoveOp(contact: Contact)

  /** What a refused insertion hands back: the full bucket and the candidate. */
  datatype Full = Full(contacts: seq<Contact>, candidate: Item)

  function ContactsOf(items: seq<Item>): (r: seq<Contact>)
    ensures |r| == |items| && forall k :: 0 <= k < |r| ==> r[k] == items[k].contact
  {
    seq(|items|, k requires 0 <= k < |items| => items[k].contact)
  }

  function NewTree(max: nat): Tree {
    Leaf(Bucket([], max), true)
  }

  /** The tree with another list of items in the leaf at `path`. */
  function SetItems(t: Tree, path: seq<bool>, items: seq<Item>): Tree
    requires IsPath(t, path) && Sub(t, path).Leaf?
  {
    var leaf := Sub(t, path);
    Put(t, path, Leaf(Bucket(items, leaf.bucket.maxSize), leaf.maySplit))
  }

  ghost predicate InsertStep(self: Id, t: Tree, c: Item, t': Tree, r: Result<(), Full>) {
    && Route(t, c.contact.id).Some?
    && Grow(t, 0, c.contact.id, self).Some?
    && var g := Grow(t, 0, c.contact.id, self).value;
    && Walk(g, c.contact.id).Some?
    && var path := Walk(g, c.contact.id).value;
    var b := Sub(g, path).bucket;
    if |b.items| < b.maxSize then
      r == Ok(()) && exists after :: Stored(b.items, c, after) && t' == SetItems(g, path, after)
    else
      r == Err(Full(ContactsOf(b.items), c)) && t' == g
  }

  ghost predicate MustInsertStep(t: Tree, c: Item, t': Tree) {
    && Route(t, c.contact.id).Some?
    && var path := Route(t, c.contact.id).value;
    var b := Sub(t, path).bucket;
    && b.maxSize > 0
    && exists after :: Stored(Evicted(b), c, after) && t' == SetItems(t, path, after)
  }

  ghost predicate RemoveStep(t: Tree, c: Contact, t': Tree, r: Option<Item>) {
    && Route(t, c.id).Some?
    && var path := Route(t, c.id).value;
    var items := Sub(t, path).bucket.items;
    && t' == SetItems(t, path, Without(items, c.id))
    && r == match Find(items, c.id) case None => None case Some(i) => Some(items[i])
  }

  ghost predicate Step(self: Id, t: Tree, op: Op, t': Tree) {
    match op
    case InsertOp(c) => exists r :: InsertStep(self, t, c, t', r)
    case MustInsertOp(c) => MustInsertStep(t, c, t')
    case RemoveOp(c) => exists r :: RemoveStep(t, c, t', r)
  }

  /** The operation panics instead of making a step. */
  ghost predicate Panics(self: Id, t: Tree, op: Op) {
    match op
    case InsertOp(c) => Route(t, c.contact.id).None? || Grow(t, 0, c.contact.id, self).None?
    case MustInsertOp(c) =>
      Route(t, c.contact.id).None? || Sub(t, Route(t, c.contact.id).value).bucket.maxSize == 0
    case RemoveOp(c) => Route(t, c.id).None?
  }

  /** A run from the empty table: `ts` are the trees between the operations. */
  ghost predicate Run(self: Id, max: nat, ops: seq<Op>, ts: seq<Tree>) {
    && |ts| == |ops| + 1
    && ts[0] == NewTree(max)
    && forall k :: 0 <= k < |ops| ==> Step(self, ts[k], ops[k], ts[k + 1])
  }

  lemma SetItemsWellFormed(t: Tree, self: Id, max: nat, path: seq<bool>, items: seq<Item>)
    requires WellFormed(t, [], self, max) && IsPath(t, path) && Sub(t, path).Leaf?
    requires ValidBucket(Bucket(items, max)) && Under(items, path)
    ensures WellFormed(SetItems(t, path, items), [], self, max)
  {
    SubWellFormed(t, [], self, max, path);
    assert [] + path == path;
    PutWellFormed(t, [], self, max, path, Leaf(Bucket(items, max), Sub(t, path).maySplit));
  }

  // Storing under the prefix of the leaf the candidate routes to.
  lemma StoredUnder(before: seq<Item>, c: Item, after: seq<Item>, max: nat, path: seq<bool>)
    requires ValidBucket(Bucket(before, max)) && |before| < max && Stored(before, c, after)
    requires Under(before, path) && path <= c.contact.id
    ensures ValidBucket(Bucket(after, max)) && Under(after, path)
  {
    StoredKeeps(Bucket(before, max), c, after);
    forall k | 0 <= k < |after| ensures path <= after[k].contact.id {
      assert after[k] in ItemSet(after);
      if after[k] in ItemSet(before) {
        var j :| 0 <= j < |before| && before[j] == after[k];
      }
    }
  }

  /** What storing in one leaf does to the contacts of the whole table. */
  lemma StoreInLeaf(t: Tree, self: Id, max: nat, path: seq<bool>, before: seq<Item>, c: Item, after: seq<Item>)
    requires WellFormed(t, [], self, max) && IsPath(t, path) && Sub(t, path).Leaf? && path <= c.contact.id
    requires ValidBucket(Bucket(before, max)) && |before| < max && Stored(before, c, after)
    requires Sub(t, path).bucket.items == before
    ensures Replaces(Elements(t), c, Refreshed(before, c), Elements(SetItems(t, path, after)))
  {
    StoredKeeps(Bucket(before, max), c, after);
    var x, t' := Refreshed(before, c), SetItems(t, path, after);
    var s := Leaf(Bucket(after, max), Sub(t, path).maySplit);
    SubWellFormed(t, [], self, max, path);
    assert [] + path == path;
    forall y
      ensures y in Elements(t') <==> y in (set z | z in Elements(t) && z.contact.id != c.contact.id) + {x}
      ensures y in Elements(t) && y.contact.id == c.contact.id ==> y in ItemSet(before)
      ensures y in ItemSet(before) ==> y in Elements(t)
    {
      PutElements(t, [], self, max, path, s, y);
    }
  }

  /**
    Insertion conserves contacts.  When it succeeds, the stored contacts are the
    old ones less any with the same id, plus the candidate, whose time of sight
    does not move back.  When it fails, nothing stored changes, however many
    splits it took, and what comes back is the full leaf the candidate belongs to,
    which may not split.
   */
  lemma InsertConserves(self: Id, max: nat, t: Tree, c: Item, t': Tree, r: Result<(), Full>)
    requires WellFormed(t, [], self, max) && max >= 3
    requires InsertStep(self, t, c, t', r)
    ensures WellFormed(t', [], self, max)
    ensures r.Ok? ==> Replaced(Elements(t), c, Elements(t'))
    ensures r.Err? ==>
              && Elements(t') == Elements(t)
              && r.error.candidate == c
              && Route(t', c.contact.id).Some?
              && var leaf := Sub(t', Route(t', c.contact.id).value);
              !leaf.maySplit && |leaf.bucket.items| == max && r.error.contacts == ContactsOf(leaf.bucket.items)
  {
    var id := c.contact.id;
    GrowWellFormed(t, [], self, max, id);
    GrowEnds(t, 0, id, self);
    var g := Grow(t, 0, id, self).value;
    assert id[0..] == id;
    var path := Walk(g, id).value;
    SubWellFormed(g, [], self, max, path);
    assert [] + path == path;
    WellFormedRoutes(g, [], self, max, id);
    var b := Sub(g, path).bucket;
    if r.Ok? {
      var after :| Stored(b.items, c, after) && t' == SetItems(g, path, after);
      StoreInRoom(g, self, max, path, c, after);
    }
  }

  /** Forced insertion always stores; from a full leaf it drops the contact seen
      longest ago, and nothing else. */
  lemma MustInsertConserves(self: Id, max: nat, t: Tree, c: Item, t': Tree)
    requires WellFormed(t, [], self, max)
    requires MustInsertStep(t, c, t')
    ensures WellFormed(t', [], self, max)
    ensures var items := Sub(t, Route(t, c.contact.id).value).bucket.items;
            var kept := if items == [] || |items| < max then Elements(t) else Elements(t) - {items[0]};
            Replaced(kept, c, Elements(t'))
  {
    var path := Route(t, c.contact.id).value;
    var items := Sub(t, path).bucket.items;
    SubWellFormed(t, [], self, max, path);
    assert [] + path == path;
    var after :| Stored(Evicted(Bucket(items, max)), c, after) && t' == SetItems(t, path, after);
    if |items| < max {
      StoreInRoom(t, self, max, path, c, after);
    } else {
      StoreAfterEviction(t, self, max, path, c, after);
    }
  }

  lemma StoreInRoom(t: Tree, self: Id, max: nat, path: seq<bool>, c: Item, after: seq<Item>)
    requires WellFormed(t, [], self, max) && IsPath(t, path) && Sub(t, path).Leaf? && path <= c.contact.id
    requires |Sub(t, path).bucket.items| < max && Stored(Sub(t, path).bucket.items, c, after)
    ensures WellFormed(SetItems(t, path, after), [], self, max)
    ensures Replaced(Elements(t), c, Elements(SetItems(t, path, after)))
  {
    var items := Sub(t, path).bucket.items;
    SubWellFormed(t, [], self, max, path);
    assert [] + path == path;
    StoredUnder(items, c, after, max, path);
    SetItemsWellFormed(t, self, max, path, after);
    StoreInLeaf(t, self, max, path, items, c, after);
  }

  lemma StoreAfterEviction(t: Tree, self: Id, max: nat, path: seq<bool>, c: Item, after: seq<Item>)
    requires WellFormed(t, [], self, max) && IsPath(t, path) && Sub(t, path).Leaf? && path <= c.contact.id
    requires |Sub(t, path).bucket.items| == max > 0
    requires Stored(Sub(t, path).bucket.items[1..], c, after)
    ensures WellFormed(SetItems(t, path, after), [], self, max)
    ensures var items := Sub(t, path).bucket.items;
            Replaced(Elements(t) - {items[0]}, c, Elements(SetItems(t, path, after)))
  {
    var items := Sub(t, path).bucket.items;
    SubWellFormed(t, [], self, max, path);
    assert [] + path == path;
    var u := SetItems(t, path, items[1..]);
    SetItemsWellFormed(t, self, max, path, items[1..]);
    DropOldest(t, self, max, path);
    PutTwice(t, path, Leaf(Bucket(items[1..], max), Sub(t, path).maySplit));
    assert SetItems(u, path, after) == SetItems(t, path, after);
    StoreInRoom(u, self, max, path, c, after);
  }

  lemma DropOldest(t: Tree, self: Id, max: nat, path: seq<bool>)
    requires WellFormed(t, [], self, max) && IsPath(t, path) && Sub(t, path).Leaf?
    requires var b := Sub(t, path).bucket; |b.items| == max && max > 0
    ensures var items := Sub(t, path).bucket.items;
            Elements(SetItems(t, path, items[1..])) == Elements(t) - {items[0]}
  {
    var items := Sub(t, path).bucket.items;
    var s := Leaf(Bucket(items[1..], max), Sub(t, path).maySplit);
    SubWellFormed(t, [], self, max, path);
    assert [] + path == path;
    assert items == [items[0]] + items[1..];
    assert items[0] !in items[1..];
    forall y ensures y in Elements(Put(t, path, s)) <==> y in Elements(t) - {items[0]} {
      PutElements(t, [], self, max, path, s, y);
    }
  }

  /** Removal takes away the contact of that id, wherever it is, and returns it. */
  lemma RemoveConserves(self: Id, max: nat, t: Tree, c: Contact, t': Tree, r: Option<Item>)
    requires WellFormed(t, [], self, max)
    requires RemoveStep(t, c, t', r)
    ensures WellFormed(t', [], self, max)
    ensures Elements(t') == set y | y in Elements(t) && y.contact.id != c.id
    ensures r.Some? ==> r.value in Elements(t) && r.value.contact.id == c.id
    ensures r.None? ==> Elements(t') == Elements(t)
  {
    var path := Route(t, c.id).value;
    var items := Sub(t, path).bucket.items;
    SubWellFormed(t, [], self, max, path);
    assert [] + path == path;
    WithoutKeeps(items, c.id);
    WithoutUnder(items, c.id, path);
    SetItemsWellFormed(t, self, max, path, Without(items, c.id));
    RemoveElements(self, max, t, path, c.id);
    if r.Some? {
      RemoveElement(self, max, t, path, c.id, r.value);
    } else {
      assert t' == SetItems(t, path, items);
      PutSame(t, path);
    }
  }

  lemma RemoveElements(self: Id, max: nat, t: Tree, path: seq<bool>, id: Id)
    requires WellFormed(t, [], self, max) && IsPath(t, path) && Sub(t, path).Leaf? && path <= id
    requires DistinctIds(Sub(t, path).bucket.items) && SeenSorted(Sub(t, path).bucket.items)
    ensures Elements(SetItems(t, path, Without(Sub(t, path).bucket.items, id)))
              == set y | y in Elements(t) && y.contact.id != id
  {
    var t' := SetItems(t, path, Without(Sub(t, path).bucket.items, id));
    forall y ensures y in Elements(t') <==> y in Elements(t) && y.contact.id != id {
      RemoveElement(self, max, t, path, id, y);
    }
  }

  lemma WithoutUnder(items: seq<Item>, id: Id, path: seq<bool>)
    requires Under(items, path)
    ensures Under(Without(items, id), path)
  {
  }

  lemma RemoveElement(self: Id, max: nat, t: Tree, path: seq<bool>, id: Id, y: Item)
    requires WellFormed(t, [], self, max) && IsPath(t, path) && Sub(t, path).Leaf? && path <= id
    requires DistinctIds(Sub(t, path).bucket.items) && SeenSorted(Sub(t, path).bucket.items)
    ensures var items := Sub(t, path).bucket.items;
            y in Elements(SetItems(t, path, Without(items, id))) <==> y in Elements(t) && y.contact.id != id
    ensures y in Sub(t, path).bucket.items <==> y in Elements(t) && path <= y.contact.id
  {
    var leaf := Sub(t, path);
    var s := Leaf(Bucket(Without(leaf.bucket.items, id), leaf.bucket.maxSize), leaf.maySplit);
    assert [] + path == path;
    PutElements(t, [], self, max, path, s, y);
    WithoutKeeps(leaf.bucket.items, id);
    assert y in Elements(s) <==> y in ItemSet(Without(leaf.bucket.items, id));
  }

  lemma StepWellFormed(self: Id, max: nat, t: Tree, op: Op, t': Tree)
    requires WellFormed(t, [], self, max) && max >= 3
    requires Step(self, t, op, t')
    ensures WellFormed(t', [], self, max)
  {
    match op {
      case InsertOp(c) =>
        var r :| InsertStep(self, t, c, t', r);
        InsertConserves(self, max, t, c, t', r);
      case MustInsertOp(c) =>
        MustInsertConserves(self, max, t, c, t');
      case RemoveOp(c) =>
        var r :| RemoveStep(t, c, t', r);
        RemoveConserves(self, max, t, c, t', r);
    }
  }

  lemma NewTreeWellFormed(self: Id, max: nat)
    ensures WellFormed(NewTree(max), [], self, max)
  {
  }

  /** The invariant holds between all the operations of every run. */
  lemma {:induction false} RunWellFormed(self: Id, max: nat, ops: seq<Op>, ts: seq<Tree>, n: nat)
    requires Run(self, max, ops, ts) && max >= 3 && n < |ts|
    ensures WellFormed(ts[n], [], self, max)
  {
    if n == 0 {
      NewTreeWellFormed(self, max);
    } else {
      RunWellFormed(self, max, ops, ts, n - 1);
      assert Step(self, ts[n - 1], ops[n - 1], ts[n - 1 + 1]);
      StepWellFormed(self, max, ts[n - 1], ops[n - 1], ts[n]);
    }
  }

  lemma WellFormedNeverPanics(self: Id, max: nat, t: Tree, op: Op)
    requires WellFormed(t, [], self, max) && max >= 3
    ensures !Panics(self, t, op)
  {
    var id := match op case InsertOp(c) => c.contact.id case MustInsertOp(c) => c.contact.id case RemoveOp(c) => c.id;
    WellFormedRoutes(t, [], self, max, id);
    GrowWellFormed(t, [], self, max, id);
    SubWellFormed(t, [], self, max, Route(t, id).value);
  }

  /** No run of a table of this bucket size ever reaches a panic. */
  ghost predicate AllRunsSafe(max: nat) {
    forall self, ops, ts, op :: Run(self, max, ops, ts) ==> !Panics(self, ts[|ops|], op)
  }

  // ---- Bucket sizes below three ----

  function ItemOf(id: Id): Item {
    Item(Contact(id, 0), 0)
  }

  /** Two ids that differ in the last bit only, the first of them all zeros. */
  ghost predicate Neighbours(zero: Id, one: Id) {
    && (forall k :: 0 <= k < ID_BITS ==> !zero[k])
    && (forall k :: 0 <= k < ID_BITS ==> one[k] == (k == ID_BITS - 1))
  }

  /** The bucket is full of ids that at most the last bit can tell apart from our
      own, so growing towards our own id splits all the way down, or further. */
  lemma {:induction false} GrowsTooDeep(zero: Id, one: Id, items: seq<Item>, max: nat, d: nat)
    requires Neighbours(zero, one)
    requires max == |items| <= 2 && d + max / 2 <= ID_BITS
    requires items <= [ItemOf(zero), ItemOf(one)]
    ensures var g, rest := Grow(Leaf(Bucket(items, max), true), d, zero, zero), zero[d..];
            if max < 2 then g.None?
            else g.Some? && IsPath(g.value, rest) && Sub(g.value, rest) == Leaf(Bucket(items[..1], 2), true)
    decreases ID_BITS - d
  {
    if d < ID_BITS {
      var rest := zero[d..];
      assert rest[0] == false && rest[1..] == zero[d + 1..];
      if d < ID_BITS - 1 || max < 2 {
        AllZeroAt(items, d);
        GrowsTooDeep(zero, one, items, max, d + 1);
      } else {
        AllZeroAt(items[..1], d);
        WithBitAppend(items[..1], items[1], d, false);
        assert items == items[..1] + [items[1]];
        assert rest[1..] == [];
      }
    }
  }

  lemma {:induction false} AllZeroAt(items: seq<Item>, d: nat)
    requires d < ID_BITS
    requires forall k :: 0 <= k < |items| ==> !items[k].contact.id[d]
    ensures WithBit(items, d, false) == items
  {
    if items != [] {
      AllZeroAt(items[1..], d);
      assert items == [items[0]] + items[1..];
    }
  }

  lemma StoredHere(before: seq<Item>, c: Item, i: nat, after: seq<Item>)
    requires InsertPoint(Without(before, c.contact.id), Refreshed(before, c).lastSeen, i)
    requires after == InsertAt(Without(before, c.contact.id), i, Refreshed(before, c))
    ensures Stored(before, c, after)
  {
  }

  lemma StoreFirst(self: Id, t: Tree, c: Item, after: seq<Item>)
    requires t.Leaf? && |t.bucket.items| < t.bucket.maxSize && Stored(t.bucket.items, c, after)
    ensures InsertStep(self, t, c, Leaf(Bucket(after, t.bucket.maxSize), t.maySplit), Ok(()))
  {
    assert Walk(t, c.contact.id) == Some([]);
    assert SetItems(t, [], after) == Leaf(Bucket(after, t.bucket.maxSize), t.maySplit);
  }

  // The insertion itself succeeds, in a leaf the traversal can no longer reach.
  lemma TooDeepStep(zero: Id, one: Id) returns (t': Tree)
    requires Neighbours(zero, one)
    ensures InsertStep(zero, Leaf(Bucket([ItemOf(zero), ItemOf(one)], 2), true), ItemOf(zero), t', Ok(()))
    ensures Route(t', zero).None?
  {
    var a := ItemOf(zero);
    var items := [a, ItemOf(one)];
    GrowsTooDeep(zero, one, items, 2, 0);
    assert zero[0..] == zero == zero[0..ID_BITS] && items[..1] == [a];
    var g := Grow(Leaf(Bucket(items, 2), true), 0, zero, zero).value;
    WalkIs(g, 0, ID_BITS, zero);
    StoredHere([a], a, 0, [a]);
    t' := SetItems(g, zero, [a]);
    PutTwice(g, zero, Leaf(Bucket([a], 2), true));
    WalkIs(t', 0, ID_BITS, zero);
  }

  ghost predicate SomeRunPanics(self: Id, max: nat) {
    exists ops, ts, op :: Run(self, max, ops, ts) && Panics(self, ts[|ops|], op)
  }

  lemma SizeZeroPanics(zero: Id, one: Id)
    requires Neighbours(zero, one)
    ensures SomeRunPanics(zero, 0)
  {
    GrowsTooDeep(zero, one, [], 0, 0);
    var ops: seq<Op>, ts := [], [NewTree(0)];
    assert Run(zero, 0, ops, ts) && Panics(zero, ts[|ops|], InsertOp(ItemOf(zero)));
  }

  lemma SizeOnePanics(zero: Id, one: Id)
    requires Neighbours(zero, one)
    ensures SomeRunPanics(zero, 1)
  {
    var a := ItemOf(zero);
    StoredHere([], a, 0, [a]);
    StoreFirst(zero, NewTree(1), a, [a]);
    GrowsTooDeep(zero, one, [a], 1, 0);
    var ops, ts := [InsertOp(a)], [NewTree(1), Leaf(Bucket([a], 1), true)];
    assert Run(zero, 1, ops, ts) && Panics(zero, ts[|ops|], InsertOp(a));
  }

  lemma FillTwo(zero: Id, one: Id)
    requires Neighbours(zero, one)
    ensures Step(zero, NewTree(2), InsertOp(ItemOf(zero)), Leaf(Bucket([ItemOf(zero)], 2), true))
    ensures Step(zero, Leaf(Bucket([ItemOf(zero)], 2), true), InsertOp(ItemOf(one)),
                 Leaf(Bucket([ItemOf(zero), ItemOf(one)], 2), true))
  {
    var a, b := ItemOf(zero), ItemOf(one);
    assert zero[ID_BITS - 1] != one[ID_BITS - 1];
    StoredHere([], a, 0, [a]);
    StoreFirst(zero, NewTree(2), a, [a]);
    StoredHere([a], b, 1, [a, b]);
    StoreFirst(zero, Leaf(Bucket([a], 2), true), b, [a, b]);
  }

  lemma RunOfThree(self: Id, max: nat, op0: Op, op1: Op, op2: Op, t1: Tree, t2: Tree, t3: Tree)
    requires Step(self, NewTree(max), op0, t1) && Step(self, t1, op1, t2) && Step(self, t2, op2, t3)
    ensures Run(self, max, [op0, op1, op2], [NewTree(max), t1, t2, t3])
  {
  }

  lemma SizeTwoPanics(zero: Id, one: Id)
    requires Neighbours(zero, one)
    ensures SomeRunPanics(zero, 2)
  {
    var a, b := InsertOp(ItemOf(zero)), InsertOp(ItemOf(one));
    var t1, t2 := Leaf(Bucket([a.item], 2), true), Leaf(Bucket([a.item, b.item], 2), true);
    FillTwo(zero, one);
    var t3 := TooDeepStep(zero, one);
    RunOfThree(zero, 2, a, b, a, t1, t2, t3);
    var ops, ts := [a, b, a], [NewTree(2), t1, t2, t3];
    assert ts[|ops|] == t3 && Panics(zero, ts[|ops|], RemoveOp(a.item.contact));
  }

  /** Buckets of three are exactly what keeps every run clear of the panics of
      `traverse` and `insert`. */
  lemma SafeExactlyFromThree(max: nat)
    ensures AllRunsSafe(max) <==> max >= 3
  {
    if max < 3 {
      // Fill the root with our own id and its nearest neighbour, then insert our own id again.
      var zero, one := seq(ID_BITS, k => false), seq(ID_BITS, k => k == ID_BITS - 1);
      SizeZeroPanics(zero, one);
      SizeOnePanics(zero, one);
      SizeTwoPanics(zero, one);
    } else {
      forall self, ops, ts, op | Run(self, max, ops, ts) ensures !Panics(self, ts[|ops|], op) {
        RunWellFormed(self, max, ops, ts, |ops|);
        WellFormedNeverPanics(self, max, ts[|ops|], op);
      }
    }
  }
}
