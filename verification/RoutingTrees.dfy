/**
  The tree inside the Kademlia routing table (rust/bittorrent/dht/src/routing.rs)
  as a value: routing, splitting, and what every operation keeps.

  In the source each node is owned by its parent, so a tree has no aliases and
  updating a leaf in place is the same as replacing it.
 */
module RoutingTrees {
  import opened Common
  import opened NodeIds
  import opened KBuckets

  /** When the bit is set, go left. */
  datatype Tree = Leaf(bucket: Bucket, maySplit: bool) | Branch(left: Tree, right: Tree)

  function Child(t: Tree, bit: bool): Tree
    requires t.Branch?
  {
    if bit then t.left else t.right
  }

  function Graft(t: Tree, bit: bool, child: Tree): Tree
    requires t.Branch?
  {
    if bit then Branch(child, t.right) else Branch(t.left, child)
  }

  predicate IsPath(t: Tree, path: seq<bool>) {
    path == [] || (t.Branch? && IsPath(Child(t, path[0]), path[1..]))
  }

  /** The subtree at the end of a path. */
  function Sub(t: Tree, path: seq<bool>): Tree
    requires IsPath(t, path)
  {
    if path == [] then t else Sub(Child(t, path[0]), path[1..])
  }

  /** The tree with the subtree at the end of a path replaced. */
  function Put(t: Tree, path: seq<bool>, s: Tree): Tree
    requires IsPath(t, path)
  {
    if path == [] then s else Graft(t, path[0], Put(Child(t, path[0]), path[1..], s))
  }

  /** The path along which an id reaches its leaf. */
  function Walk(t: Tree, id: seq<bool>): (r: Option<seq<bool>>)
    ensures r.Some? ==> r.value <= id && IsPath(t, r.value) && Sub(t, r.value).Leaf?
  {
    if t.Leaf? then Some([])
    else if id == [] then None
    else match Walk(Child(t, id[0]), id[1..])
      case None => None
      case Some(path) =>
        assert ([id[0]] + path)[1..] == path;
        Some([id[0]] + path)
  }

  /** The traversal of the source.  None where it panics: it looks at a node only
      while there is a bit left, so a leaf as deep as the id is long is too deep. */
  function Route(t: Tree, id: seq<bool>): Option<seq<bool>> {
    match Walk(t, id)
    case None => None
    case Some(path) => if |path| < |id| then Some(path) else None
  }

  predicate NeedsSplit(t: Tree) {
    t.Leaf? && t.maySplit && |t.bucket.items| >= t.bucket.maxSize
  }

  function SplitLeaf(t: Tree, d: nat, self: Id): Tree
    requires t.Leaf? && d < ID_BITS
  {
    Branch(
      Leaf(Bucket(WithBit(t.bucket.items, d, true), t.bucket.maxSize), self[d]),
      Leaf(Bucket(WithBit(t.bucket.items, d, false), t.bucket.maxSize), !self[d]))
  }

  /** The tree, whose root is at depth `d`, after all the splits that inserting `id`
      makes.  None where the source indexes past the last bit. */
  function Grow(t: Tree, d: nat, id: Id, self: Id): Option<Tree>
    requires d <= ID_BITS
    decreases ID_BITS - d
  {
    if t.Leaf? && !NeedsSplit(t) then Some(t)
    else if d == ID_BITS then None
    else
      var u := if NeedsSplit(t) then SplitLeaf(t, d, self) else t;
      match Grow(Child(u, id[d]), d + 1, id, self)
      case None => None
      case Some(child) => Some(Graft(u, id[d], child))
  }

  function Elements(t: Tree): set<Item> {
    match t
    case Leaf(b, _) => ItemSet(b.items)
    case Branch(l, r) => Elements(l) + Elements(r)
  }

  /**
    The invariant of the subtree at `prefix`: every bucket is valid and of the
    common size, every contact sits under the prefix of its leaf, branches lie on
    the path of our own id, and a leaf may split exactly when our own id belongs
    to it.  No leaf is as deep as an id is long.
   */
  ghost predicate WellFormed(t: Tree, prefix: seq<bool>, self: Id, max: nat) {
    && |prefix| < ID_BITS
    && match t
       case Leaf(b, maySplit) =>
         && ValidBucket(b) && b.maxSize == max
         && maySplit == (prefix <= self)
         && Under(b.items, prefix)
       case Branch(l, r) =>
         && prefix <= self
         && WellFormed(l, prefix + [true], self, max)
         && WellFormed(r, prefix + [false], self, max)
  }

  ghost predicate Under(items: seq<Item>, prefix: seq<bool>) {
    forall k :: 0 <= k < |items| ==> prefix <= items[k].contact.id
  }

  /** A branch has at most one branch for a child: the one towards our own id. */
  lemma OneBranchPerDepth(t: Tree, prefix: seq<bool>, self: Id, max: nat)
    requires WellFormed(t, prefix, self, max) && t.Branch?
    ensures t.left.Leaf? || t.right.Leaf?
  {
    PrefixStep(prefix, self);
  }

  lemma ChildWellFormed(t: Tree, prefix: seq<bool>, self: Id, max: nat, bit: bool)
    requires WellFormed(t, prefix, self, max) && t.Branch?
    ensures WellFormed(Child(t, bit), prefix + [bit], self, max)
  {
  }

  lemma GraftWellFormed(t: Tree, prefix: seq<bool>, self: Id, max: nat, bit: bool, child: Tree)
    requires WellFormed(t, prefix, self, max) && t.Branch?
    requires WellFormed(child, prefix + [bit], self, max)
    ensures WellFormed(Graft(t, bit, child), prefix, self, max)
  {
  }

  lemma {:induction false} ElementsUnder(t: Tree, prefix: seq<bool>, self: Id, max: nat, y: Item)
    requires WellFormed(t, prefix, self, max) && y in Elements(t)
    ensures prefix <= y.contact.id
  {
    match t {
      case Leaf(_, _) =>
      case Branch(l, r) =>
        if y in Elements(l) {
          ElementsUnder(l, prefix + [true], self, max, y);
        } else {
          ElementsUnder(r, prefix + [false], self, max, y);
        }
    }
  }

  lemma {:induction false} SubWellFormed(t: Tree, prefix: seq<bool>, self: Id, max: nat, path: seq<bool>)
    requires WellFormed(t, prefix, self, max) && IsPath(t, path)
    ensures WellFormed(Sub(t, path), prefix + path, self, max)
    decreases |path|
  {
    if path == [] {
      assert prefix + path == prefix;
    } else {
      ChildWellFormed(t, prefix, self, max, path[0]);
      SubWellFormed(Child(t, path[0]), prefix + [path[0]], self, max, path[1..]);
      assert prefix + [path[0]] + path[1..] == prefix + path;
    }
  }

  lemma {:induction false} PutWellFormed(t: Tree, prefix: seq<bool>, self: Id, max: nat, path: seq<bool>, s: Tree)
    requires WellFormed(t, prefix, self, max) && IsPath(t, path)
    requires WellFormed(s, prefix + path, self, max)
    ensures WellFormed(Put(t, path, s), prefix, self, max)
    decreases |path|
  {
    if path == [] {
      assert prefix + path == prefix;
    } else {
      ChildWellFormed(t, prefix, self, max, path[0]);
      assert prefix + [path[0]] + path[1..] == prefix + path;
      PutWellFormed(Child(t, path[0]), prefix + [path[0]], self, max, path[1..], s);
      GraftWellFormed(t, prefix, self, max, path[0], Put(Child(t, path[0]), path[1..], s));
    }
  }

  // The child on the other side holds nothing under `prefix + path`.
  lemma OtherSide(t: Tree, prefix: seq<bool>, self: Id, max: nat, path: seq<bool>, y: Item)
    requires WellFormed(t, prefix, self, max) && t.Branch? && path != []
    requires y in Elements(Child(t, !path[0]))
    ensures !(prefix + path <= y.contact.id)
  {
    ElementsUnder(Child(t, !path[0]), prefix + [!path[0]], self, max, y);
    assert y.contact.id[|prefix|] == !path[0];
    assert (prefix + path)[|prefix|] == path[0];
  }

  /** Replacing a subtree changes exactly the contacts under its prefix. */
  lemma {:induction false} PutElements(t: Tree, prefix: seq<bool>, self: Id, max: nat,
                                       path: seq<bool>, s: Tree, y: Item)
    requires WellFormed(t, prefix, self, max) && IsPath(t, path)
    ensures y in Elements(Put(t, path, s)) <==>
              y in Elements(s) || (y in Elements(t) && !(prefix + path <= y.contact.id))
    ensures y in Elements(Sub(t, path)) <==> y in Elements(t) && prefix + path <= y.contact.id
    decreases |path|
  {
    if path == [] {
      assert prefix + path == prefix;
      if y in Elements(t) {
        ElementsUnder(t, prefix, self, max, y);
      }
    } else {
      PutElements(Child(t, path[0]), prefix + [path[0]], self, max, path[1..], s, y);
      assert prefix + [path[0]] + path[1..] == prefix + path;
      if y in Elements(Child(t, !path[0])) {
        OtherSide(t, prefix, self, max, path, y);
      }
    }
  }

  lemma {:induction false} PutTwice(t: Tree, path: seq<bool>, s: Tree)
    requires IsPath(t, path)
    ensures IsPath(Put(t, path, s), path) && Sub(Put(t, path, s), path) == s
    ensures forall u :: Put(Put(t, path, s), path, u) == Put(t, path, u)
    decreases |path|
  {
    if path != [] {
      PutTwice(Child(t, path[0]), path[1..], s);
      var g := Graft(t, path[0], Put(Child(t, path[0]), path[1..], s));
      assert Child(g, path[0]) == Put(Child(t, path[0]), path[1..], s);
    }
  }

  lemma {:induction false} PutSame(t: Tree, path: seq<bool>)
    requires IsPath(t, path)
    ensures Put(t, path, Sub(t, path)) == t
    decreases |path|
  {
    if path != [] {
      PutSame(Child(t, path[0]), path[1..]);
    }
  }

  lemma {:induction false} PathExtend(t: Tree, path: seq<bool>, bit: bool)
    requires IsPath(t, path) && Sub(t, path).Branch?
    ensures IsPath(t, path + [bit]) && Sub(t, path + [bit]) == Child(Sub(t, path), bit)
    decreases |path|
  {
    if path == [] {
      assert path + [bit] == [bit];
    } else {
      PathExtend(Child(t, path[0]), path[1..], bit);
      assert (path + [bit])[1..] == path[1..] + [bit];
    }
  }

  lemma {:induction false} DistinctIdsCount(items: seq<Item>) returns (ids: set<Id>)
    requires DistinctIds(items)
    ensures |ids| == |items|
    ensures forall id :: id in ids ==> exists k :: 0 <= k < |items| && items[k].contact.id == id
  {
    if items == [] {
      ids := {};
    } else {
      var rest := DistinctIdsCount(items[1..]);
      ids := rest + {items[0].contact.id};
      forall id | id in rest ensures exists k :: 0 <= k < |items| && items[k].contact.id == id {
        var k :| 0 <= k < |items[1..]| && items[1..][k].contact.id == id;
        assert items[k + 1].contact.id == id;
      }
      assert forall k :: 0 <= k < |items[1..]| ==> items[1..][k].contact.id != items[0].contact.id;
      assert items[0].contact.id !in rest;
    }
  }

  /** Pigeonhole: a leaf with at least three contacts has two bits to spare. */
  lemma CrowdedLeafIsShallow(items: seq<Item>, prefix: seq<bool>)
    requires |prefix| <= ID_BITS && DistinctIds(items) && Under(items, prefix)
    ensures |items| <= Pow2(ID_BITS - |prefix|)
    ensures |items| >= 3 ==> |prefix| + 2 <= ID_BITS
  {
    var ids := DistinctIdsCount(items);
    IdsUnderPrefix(ids, prefix);
    assert Pow2(0) == 1 && Pow2(1) == 2;
  }

  lemma SplitHalfUnder(items: seq<Item>, prefix: seq<bool>, v: bool)
    requires |prefix| < ID_BITS && Under(items, prefix)
    ensures Under(WithBit(items, |prefix|, v), prefix + [v])
  {
    var half := WithBit(items, |prefix|, v);
    forall k | 0 <= k < |half| ensures prefix + [v] <= half[k].contact.id {
      WithBitMember(items, |prefix|, v, half[k]);
      PrefixStep(prefix, half[k].contact.id);
    }
  }

  /** Splitting a full leaf keeps the invariant and every contact. */
  lemma SplitWellFormed(t: Tree, prefix: seq<bool>, self: Id, max: nat)
    requires WellFormed(t, prefix, self, max) && NeedsSplit(t) && max >= 3
    ensures WellFormed(SplitLeaf(t, |prefix|, self), prefix, self, max)
    ensures Elements(SplitLeaf(t, |prefix|, self)) == Elements(t)
  {
    var items, d := t.bucket.items, |prefix|;
    CrowdedLeafIsShallow(items, prefix);
    PrefixStep(prefix, self);
    WithBitKeeps(items, d, true);
    WithBitKeeps(items, d, false);
    SplitHalfUnder(items, prefix, true);
    SplitHalfUnder(items, prefix, false);
    SplitElements(items, d);
  }

  lemma SplitElements(items: seq<Item>, d: nat)
    requires d < ID_BITS
    ensures ItemSet(WithBit(items, d, true)) + ItemSet(WithBit(items, d, false)) == ItemSet(items)
  {
    var ones, zeros := WithBit(items, d, true), WithBit(items, d, false);
    forall y ensures y in ItemSet(ones) + ItemSet(zeros) <==> y in ItemSet(items) {
      WithBitMember(items, d, true, y);
      WithBitMember(items, d, false, y);
    }
  }

  lemma {:induction false} WellFormedRoutes(t: Tree, prefix: seq<bool>, self: Id, max: nat, rest: seq<bool>)
    requires WellFormed(t, prefix, self, max) && |prefix| + |rest| == ID_BITS
    ensures Walk(t, rest).Some? && Route(t, rest) == Walk(t, rest)
    decreases |rest|
  {
    if t.Branch? {
      ChildWellFormed(t, prefix, self, max, rest[0]);
      WellFormedRoutes(Child(t, rest[0]), prefix + [rest[0]], self, max, rest[1..]);
    }
  }

  /** With buckets of three or more, growing never runs out of bits, keeps the
      invariant and every contact, and ends at a leaf that takes or refuses the id. */
  lemma {:induction false} GrowWellFormed(t: Tree, prefix: seq<bool>, self: Id, max: nat, id: Id)
    requires WellFormed(t, prefix, self, max) && prefix <= id && max >= 3
    ensures Grow(t, |prefix|, id, self).Some?
    ensures WellFormed(Grow(t, |prefix|, id, self).value, prefix, self, max)
    ensures Elements(Grow(t, |prefix|, id, self).value) == Elements(t)
    decreases ID_BITS - |prefix|
  {
    if t.Branch? || NeedsSplit(t) {
      var d := |prefix|;
      var u := if NeedsSplit(t) then SplitLeaf(t, d, self) else t;
      if NeedsSplit(t) {
        SplitWellFormed(t, prefix, self, max);
      }
      ChildWellFormed(u, prefix, self, max, id[d]);
      PrefixStep(prefix, id);
      GrowWellFormed(Child(u, id[d]), prefix + [id[d]], self, max, id);
      GraftWellFormed(u, prefix, self, max, id[d], Grow(Child(u, id[d]), d + 1, id, self).value);
    }
  }

  lemma {:induction false} GrowEnds(t: Tree, d: nat, id: Id, self: Id)
    requires d <= ID_BITS && Grow(t, d, id, self).Some?
    ensures var g := Grow(t, d, id, self).value;
            Walk(g, id[d..]).Some? && !NeedsSplit(Sub(g, Walk(g, id[d..]).value))
    decreases ID_BITS - d
  {
    if t.Branch? || NeedsSplit(t) {
      var u := if NeedsSplit(t) then SplitLeaf(t, d, self) else t;
      GrowEnds(Child(u, id[d]), d + 1, id, self);
      var g := Grow(t, d, id, self).value;
      assert id[d..][1..] == id[d + 1..];
      assert Child(g, id[d]) == Grow(Child(u, id[d]), d + 1, id, self).value;
      var p := Walk(Child(g, id[d]), id[d + 1..]).value;
      assert ([id[d]] + p)[1..] == p;
    }
  }

  /** One split along the way is one unfolding of `Grow`. */
  lemma {:induction false} GrowAlong(t: Tree, e: nat, d: nat, id: Id, self: Id)
    requires e <= d < ID_BITS && IsPath(t, id[e..d]) && NeedsSplit(Sub(t, id[e..d]))
    ensures Grow(Put(t, id[e..d], SplitLeaf(Sub(t, id[e..d]), d, self)), e, id, self) == Grow(t, e, id, self)
    decreases d - e
  {
    if e < d {
      assert id[e..d][1..] == id[e + 1..d] && id[e..d][0] == id[e];
      GrowAlong(Child(t, id[e]), e + 1, d, id, self);
    } else {
      assert id[e..d] == [];
    }
  }

  lemma {:induction false} GrowDone(t: Tree, e: nat, d: nat, id: Id, self: Id)
    requires e <= d <= ID_BITS && IsPath(t, id[e..d])
    requires Sub(t, id[e..d]).Leaf? && !NeedsSplit(Sub(t, id[e..d]))
    ensures Grow(t, e, id, self) == Some(t)
    decreases d - e
  {
    if e < d {
      assert id[e..d][1..] == id[e + 1..d] && id[e..d][0] == id[e];
      GrowDone(Child(t, id[e]), e + 1, d, id, self);
    } else {
      assert id[e..d] == [];
    }
  }

  lemma {:induction false} WalkIs(t: Tree, e: nat, d: nat, id: Id)
    requires e <= d <= ID_BITS && IsPath(t, id[e..d]) && Sub(t, id[e..d]).Leaf?
    ensures Walk(t, id[e..]) == Some(id[e..d])
    decreases d - e
  {
    if e < d {
      assert id[e..d][1..] == id[e + 1..d] && id[e..d][0] == id[e];
      assert id[e..][1..] == id[e + 1..];
      WalkIs(Child(t, id[e]), e + 1, d, id);
      assert [id[e]] + id[e + 1..d] == id[e..d];
    } else {
      assert id[e..d] == [];
    }
  }
}
