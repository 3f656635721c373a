/**
  The routing table itself (rust/bittorrent/dht/src/routing.rs): a mutable object
  whose methods walk, split and query the tree with loops.
 */
module RoutingTables {
  import opened Common
  import opened Sorting
  import opened NodeIds
  import opened KBuckets
  import opened RoutingTrees
  import opened RoutingRuns

  /** All contacts, leaf by leaf from left to right. */
  function Contacts(t: Tree): seq<Contact> {
    match t
    case Leaf(b, _) => ContactsOf(b.items)
    case Branch(l, r) => Contacts(l) + Contacts(r)
  }

  /** The buckets of the subtree at depth `d`, those nearer to the target first. */
  function Blocks(t: Tree, target: Id, d: nat): seq<seq<Contact>> {
    match t
    case Leaf(b, _) => [ContactsOf(b.items)]
    case Branch(l, r) =>
      if d < ID_BITS && target[d] then Blocks(l, target, d + 1) + Blocks(r, target, d + 1)
      else Blocks(r, target, d + 1) + Blocks(l, target, d + 1)
  }

  /** The reference: sort everything by distance and keep the first `limit`. */
  function Closest(t: Tree, target: Id, limit: nat): seq<Contact> {
    Take(SortBy(Contacts(t), DistanceKey(target)), limit)
  }

  /** Buckets with their prefixes, as the iterator of the source yields them. */
  function Buckets(t: Tree, prefix: seq<bool>): seq<(Bucket, seq<bool>)> {
    match t
    case Leaf(b, _) => [(b, prefix)]
    case Branch(l, r) => Buckets(l, prefix + [true]) + Buckets(r, prefix + [false])
  }

  function SplittableLeaves(t: Tree): nat {
    match t
    case Leaf(_, maySplit) => if maySplit then 1 else 0
    case Branch(l, r) => SplittableLeaves(l) + SplittableLeaves(r)
  }

  // ---- Leaves ----

  lemma {:induction false} SplittableCount(t: Tree, prefix: seq<bool>, self: Id, max: nat)
    requires WellFormed(t, prefix, self, max)
    ensures SplittableLeaves(t) == if prefix <= self then 1 else 0
  {
    if t.Branch? {
      SplittableCount(t.left, prefix + [true], self, max);
      SplittableCount(t.right, prefix + [false], self, max);
      PrefixStep(prefix, self);
    }
  }

  /** The leaf prefixes partition the ids: exactly one of them begins a given id. */
  lemma {:induction false} PrefixesPartition(t: Tree, prefix: seq<bool>, self: Id, max: nat, id: Id) returns (k: nat)
    requires WellFormed(t, prefix, self, max) && prefix <= id
    ensures k < |Buckets(t, prefix)|
    ensures forall j :: 0 <= j < |Buckets(t, prefix)| ==> (Buckets(t, prefix)[j].1 <= id <==> j == k)
  {
    if t.Leaf? {
      k := 0;
    } else {
      var d := |prefix|;
      PrefixStep(prefix, id);
      var ls, rs := Buckets(t.left, prefix + [true]), Buckets(t.right, prefix + [false]);
      if id[d] {
        k := PrefixesPartition(t.left, prefix + [true], self, max, id);
        ForeignPrefixes(t.right, prefix + [false], self, max, id);
      } else {
        var j := PrefixesPartition(t.right, prefix + [false], self, max, id);
        k := |ls| + j;
        ForeignPrefixes(t.left, prefix + [true], self, max, id);
      }
    }
  }

  lemma {:induction false} ForeignPrefixes(t: Tree, prefix: seq<bool>, self: Id, max: nat, id: Id)
    requires WellFormed(t, prefix, self, max) && !(prefix <= id)
    ensures forall j :: 0 <= j < |Buckets(t, prefix)| ==> !(Buckets(t, prefix)[j].1 <= id)
  {
    if t.Branch? {
      ForeignPrefixes(t.left, prefix + [true], self, max, id);
      ForeignPrefixes(t.right, prefix + [false], self, max, id);
    }
  }

  /** Every bucket is valid and holds exactly the stored items under its prefix. */
  lemma {:induction false} BucketsHoldTheirPrefix(t: Tree, prefix: seq<bool>, self: Id, max: nat)
    requires WellFormed(t, prefix, self, max)
    ensures forall j :: 0 <= j < |Buckets(t, prefix)| ==>
              HoldsUnder(Buckets(t, prefix)[j].0, Buckets(t, prefix)[j].1, Elements(t), max)
    ensures forall j :: 0 <= j < |Buckets(t, prefix)| ==> prefix <= Buckets(t, prefix)[j].1
  {
    AllUnder(t, prefix, self, max);
    if t.Branch? {
      BucketsHoldTheirPrefix(t.left, prefix + [true], self, max);
      BucketsHoldTheirPrefix(t.right, prefix + [false], self, max);
      AllUnder(t.left, prefix + [true], self, max);
      AllUnder(t.right, prefix + [false], self, max);
      var ls, rs := Buckets(t.left, prefix + [true]), Buckets(t.right, prefix + [false]);
      forall j | 0 <= j < |ls| ensures HoldsUnder(ls[j].0, ls[j].1, Elements(t), max) && prefix <= ls[j].1 {
        OtherSide(prefix, true, ls[j].1, Elements(t.right));
      }
      forall j | 0 <= j < |rs| ensures HoldsUnder(rs[j].0, rs[j].1, Elements(t), max) && prefix <= rs[j].1 {
        OtherSide(prefix, false, rs[j].1, Elements(t.left));
      }
    }
  }

  ghost predicate HoldsUnder(b: Bucket, prefix: seq<bool>, stored: set<Item>, max: nat) {
    && ValidBucket(b) && b.maxSize == max
    && forall y: Item :: y in b.items <==> y in stored && prefix <= y.contact.id
  }

  lemma AllUnder(t: Tree, prefix: seq<bool>, self: Id, max: nat)
    requires WellFormed(t, prefix, self, max)
    ensures forall y :: y in Elements(t) ==> prefix <= y.contact.id
  {
    forall y | y in Elements(t) ensures prefix <= y.contact.id {
      ElementsUnder(t, prefix, self, max, y);
    }
  }

  lemma OtherSide(prefix: seq<bool>, bit: bool, longer: seq<bool>, items: set<Item>)
    requires prefix + [bit] <= longer && forall y :: y in items ==> prefix + [!bit] <= y.contact.id
    ensures prefix <= longer && forall y :: y in items ==> !(longer <= y.contact.id)
  {
    forall y | y in items ensures !(longer <= y.contact.id) {
      assert longer[|prefix|] == bit && y.contact.id[|prefix|] == !bit;
    }
  }

  /** All buckets together hold exactly what is stored. */
  lemma BucketsHoldAll(t: Tree, self: Id, max: nat, y: Item)
    requires WellFormed(t, [], self, max)
    ensures y in Elements(t) <==> exists j :: 0 <= j < |Buckets(t, [])| && y in Buckets(t, [])[j].0.items
  {
    BucketsHoldTheirPrefix(t, [], self, max);
    if y in Elements(t) {
      var k := PrefixesPartition(t, [], self, max, y.contact.id);
      assert HoldsUnder(Buckets(t, [])[k].0, Buckets(t, [])[k].1, Elements(t), max);
    }
  }

  /** At the first bit in which they differ, `p` is set. */
  ghost predicate ComesBefore(p: seq<bool>, q: seq<bool>) {
    exists d :: 0 <= d < |p| && d < |q| && p[..d] == q[..d] && p[d] && !q[d]
  }

  lemma {:induction false} BucketsExtend(t: Tree, prefix: seq<bool>)
    ensures forall j :: 0 <= j < |Buckets(t, prefix)| ==> prefix <= Buckets(t, prefix)[j].1
  {
    if t.Branch? {
      BucketsExtend(t.left, prefix + [true]);
      BucketsExtend(t.right, prefix + [false]);
    }
  }

  /** Buckets come in descending order of their prefixes. */
  lemma {:induction false} BucketsInOrder(t: Tree, prefix: seq<bool>, i: nat, j: nat)
    requires i < j < |Buckets(t, prefix)|
    ensures ComesBefore(Buckets(t, prefix)[i].1, Buckets(t, prefix)[j].1)
  {
    var ls, rs := Buckets(t.left, prefix + [true]), Buckets(t.right, prefix + [false]);
    if j < |ls| {
      BucketsInOrder(t.left, prefix + [true], i, j);
    } else if i >= |ls| {
      BucketsInOrder(t.right, prefix + [false], i - |ls|, j - |ls|);
    } else {
      BucketsExtend(t.left, prefix + [true]);
      BucketsExtend(t.right, prefix + [false]);
      var p, q, d := ls[i].1, rs[j - |ls|].1, |prefix|;
      assert p[..d] == prefix == q[..d] && p[d] && !q[d];
    }
  }

  // ---- Distances ----

  lemma {:induction false} ContactsUnder(t: Tree, prefix: seq<bool>, self: Id, max: nat)
    requires WellFormed(t, prefix, self, max)
    ensures forall k :: 0 <= k < |Contacts(t)| ==> prefix <= Contacts(t)[k].id
  {
    if t.Branch? {
      ContactsUnder(t.left, prefix + [true], self, max);
      ContactsUnder(t.right, prefix + [false], self, max);
    }
  }

  lemma ContactsDistinctIds(t: Tree, prefix: seq<bool>, self: Id, max: nat)
    requires WellFormed(t, prefix, self, max)
    ensures forall i, j :: 0 <= i < j < |Contacts(t)| ==> Contacts(t)[i].id != Contacts(t)[j].id
  {
    if t.Branch? {
      ContactsDistinctIds(t.left, prefix + [true], self, max);
      ContactsDistinctIds(t.right, prefix + [false], self, max);
      ContactsUnder(t.left, prefix + [true], self, max);
      ContactsUnder(t.right, prefix + [false], self, max);
      var ls, rs, d := Contacts(t.left), Contacts(t.right), |prefix|;
      forall i, j | 0 <= i < |ls| && 0 <= j < |rs| ensures ls[i].id != rs[j].id {
        assert ls[i].id[d] && !rs[j].id[d];
      }
    }
  }

  lemma ContactsDistinctKeys(t: Tree, self: Id, max: nat, target: Id)
    requires WellFormed(t, [], self, max)
    ensures DistinctKeys(Contacts(t), DistanceKey(target))
  {
    ContactsDistinctIds(t, [], self, max);
    var cs, key := Contacts(t), DistanceKey(target);
    forall i, j | 0 <= i < j < |cs| ensures key(cs[i]) != key(cs[j]) {
      if key(cs[i]) == key(cs[j]) {
        DistanceIsUnidirectional(target, cs[i].id, cs[j].id);
      }
    }
  }

  lemma {:induction false} BlocksArePermutation(t: Tree, target: Id, d: nat)
    ensures multiset(Flatten(Blocks(t, target, d))) == multiset(Contacts(t))
  {
    if t.Branch? {
      BlocksArePermutation(t.left, target, d + 1);
      BlocksArePermutation(t.right, target, d + 1);
      FlattenConcat(Blocks(t.left, target, d + 1), Blocks(t.right, target, d + 1));
      FlattenConcat(Blocks(t.right, target, d + 1), Blocks(t.left, target, d + 1));
    }
  }

  lemma BlocksCut(t: Tree, target: Id, k: nat)
    requires k <= |Blocks(t, target, 0)|
    ensures var bs := Blocks(t, target, 0);
            multiset(Flatten(bs[..k])) + multiset(Flatten(bs[k..])) == multiset(Contacts(t))
  {
    BlocksArePermutation(t, target, 0);
    FlattenCut(Blocks(t, target, 0), k);
  }

  /** Every contact of an earlier block is closer than every contact of a later one. */
  ghost predicate BlocksOrdered(bs: seq<seq<Contact>>, target: Id) {
    forall i, j :: 0 <= i < j < |bs| ==> AllBelow(bs[i], bs[j], DistanceKey(target))
  }

  ghost predicate BlocksUnder(bs: seq<seq<Contact>>, prefix: seq<bool>) {
    forall i, k :: 0 <= i < |bs| && 0 <= k < |bs[i]| ==> prefix <= bs[i][k].id
  }

  lemma {:induction false} BlocksAreUnder(t: Tree, prefix: seq<bool>, self: Id, max: nat, target: Id)
    requires WellFormed(t, prefix, self, max)
    ensures BlocksUnder(Blocks(t, target, |prefix|), prefix)
  {
    if t.Branch? {
      BlocksAreUnder(t.left, prefix + [true], self, max, target);
      BlocksAreUnder(t.right, prefix + [false], self, max, target);
    }
  }

  lemma NearBelowFar(near: seq<Contact>, far: seq<Contact>, prefix: seq<bool>, target: Id)
    requires |prefix| < ID_BITS
    requires forall k :: 0 <= k < |near| ==> prefix + [target[|prefix|]] <= near[k].id
    requires forall k :: 0 <= k < |far| ==> prefix + [!target[|prefix|]] <= far[k].id
    ensures AllBelow(near, far, DistanceKey(target))
  {
    var key, d := DistanceKey(target), |prefix|;
    forall i, j | 0 <= i < |near| && 0 <= j < |far| ensures key(near[i]) < key(far[j]) {
      assert near[i].id[..d] == prefix == far[j].id[..d];
      CloserAtBit(target, near[i].id, far[j].id, d);
    }
  }

  lemma {:induction false} BlocksAreOrdered(t: Tree, prefix: seq<bool>, self: Id, max: nat, target: Id)
    requires WellFormed(t, prefix, self, max)
    ensures BlocksOrdered(Blocks(t, target, |prefix|), target)
  {
    if t.Branch? {
      var d := |prefix|;
      var bit := target[d];
      ChildWellFormed(t, prefix, self, max, bit);
      ChildWellFormed(t, prefix, self, max, !bit);
      BlocksAreOrdered(Child(t, bit), prefix + [bit], self, max, target);
      BlocksAreOrdered(Child(t, !bit), prefix + [!bit], self, max, target);
      BlocksAreUnder(Child(t, bit), prefix + [bit], self, max, target);
      BlocksAreUnder(Child(t, !bit), prefix + [!bit], self, max, target);
      var near, far := Blocks(Child(t, bit), target, d + 1), Blocks(Child(t, !bit), target, d + 1);
      forall i, j | 0 <= i < |near| && 0 <= j < |far| ensures AllBelow(near[i], far[j], DistanceKey(target)) {
        NearBelowFar(near[i], far[j], prefix, target);
      }
      assert Blocks(t, target, d) == near + far;
    }
  }

  lemma PrefixBelowRest(bs: seq<seq<Contact>>, k: nat, target: Id)
    requires k <= |bs| && BlocksOrdered(bs, target)
    ensures AllBelow(Flatten(bs[..k]), Flatten(bs[k..]), DistanceKey(target))
  {
    var x, y, key := Flatten(bs[..k]), Flatten(bs[k..]), DistanceKey(target);
    forall i, j | 0 <= i < |x| && 0 <= j < |y| ensures key(x[i]) < key(y[j]) {
      var p := FlattenMember(bs[..k], x[i]);
      var q := FlattenMember(bs[k..], y[j]);
      assert bs[..k][p] == bs[p] && bs[k..][q] == bs[k + q];
      assert AllBelow(bs[p], bs[k + q], key);
    }
  }

  /** The contacts of the first blocks, enough of them to answer a query for `limit`. */
  ghost predicate Enough(contacts: seq<Contact>, t: Tree, target: Id, limit: nat) {
    exists k :: EnoughAt(contacts, t, target, limit, k)
  }

  ghost predicate EnoughAt(contacts: seq<Contact>, t: Tree, target: Id, limit: nat, k: int) {
    && 0 <= k <= |Blocks(t, target, 0)|
    && contacts == Flatten(Blocks(t, target, 0)[..k])
    && (|contacts| >= limit || k == |Blocks(t, target, 0)|)
  }

  /** Stopping early loses nothing: whole blocks that already hold `limit` contacts,
      or all blocks, give the same answer as sorting everything. */
  lemma EnoughBlocks(t: Tree, self: Id, max: nat, target: Id, limit: nat, contacts: seq<Contact>)
    requires WellFormed(t, [], self, max)
    requires Enough(contacts, t, target, limit)
    ensures Take(SortBy(contacts, DistanceKey(target)), limit) == Closest(t, target, limit)
  {
    var bs, key := Blocks(t, target, 0), DistanceKey(target);
    var k :| EnoughAt(contacts, t, target, limit, k);
    var rest := Flatten(bs[k..]);
    BlocksAreOrdered(t, [], self, max, target);
    PrefixBelowRest(bs, k, target);
    ContactsDistinctKeys(t, self, max, target);
    BlocksCut(t, target, k);
    TakeFromPart(contacts, rest, Contacts(t), key, limit);
  }

  /** The answer said directly: sorted by distance, as many as asked for, and
      nothing left out is closer than anything returned. */
  lemma ClosestIsClosest(t: Tree, self: Id, max: nat, target: Id, limit: nat)
    requires WellFormed(t, [], self, max)
    ensures LeastOf(Closest(t, target, limit), Contacts(t), DistanceKey(target), limit)
  {
    ContactsDistinctKeys(t, self, max, target);
    TakeIsLeast(Contacts(t), DistanceKey(target), limit);
  }

  // ---- The collecting loop ----

  /** What the stack still holds, in the order it will be popped. */
  ghost function StackBlocks(stack: seq<Tree>, prefixes: seq<seq<bool>>, target: Id): seq<seq<Contact>>
    requires |stack| == |prefixes|
  {
    if stack == [] then []
    else
      var n := |stack| - 1;
      Blocks(stack[n], target, |prefixes[n]|) + StackBlocks(stack[..n], prefixes[..n], target)
  }

  ghost predicate StackWellFormed(stack: seq<Tree>, prefixes: seq<seq<bool>>, self: Id, max: nat) {
    && |stack| == |prefixes|
    && forall k :: 0 <= k < |stack| ==> WellFormed(stack[k], prefixes[k], self, max)
  }

  /** At most one branch is waiting, and the running index is its depth. */
  ghost predicate IndexIsDepth(stack: seq<Tree>, prefixes: seq<seq<bool>>, bitIndex: nat)
    requires |stack| == |prefixes|
  {
    && (forall k :: 0 <= k < |stack| && stack[k].Branch? ==> |prefixes[k]| == bitIndex)
    && (forall j, k :: 0 <= j < k < |stack| ==> stack[j].Leaf? || stack[k].Leaf?)
  }

  ghost function TreeSize(t: Tree): nat {
    match t
    case Leaf(_, _) => 1
    case Branch(l, r) => 1 + TreeSize(l) + TreeSize(r)
  }

  ghost function StackSize(stack: seq<Tree>): nat {
    if stack == [] then 0 else TreeSize(stack[|stack| - 1]) + StackSize(stack[..|stack| - 1])
  }

  lemma StackPush(stack: seq<Tree>, prefixes: seq<seq<bool>>, target: Id, t: Tree, p: seq<bool>)
    requires |stack| == |prefixes|
    ensures StackBlocks(stack + [t], prefixes + [p], target)
         == Blocks(t, target, |p|) + StackBlocks(stack, prefixes, target)
    ensures StackSize(stack + [t]) == TreeSize(t) + StackSize(stack)
  {
    assert (stack + [t])[..|stack|] == stack && (prefixes + [p])[..|stack|] == prefixes;
  }

  lemma StackPush2(stack: seq<Tree>, prefixes: seq<seq<bool>>, target: Id, t: Tree, p: seq<bool>, u: Tree, q: seq<bool>)
    requires |stack| == |prefixes|
    ensures StackBlocks(stack + [t, u], prefixes + [p, q], target) ==
              Blocks(u, target, |q|) + Blocks(t, target, |p|) + StackBlocks(stack, prefixes, target)
    ensures StackSize(stack + [t, u]) == TreeSize(u) + TreeSize(t) + StackSize(stack)
  {
    StackPush(stack, prefixes, target, t, p);
    StackPush(stack + [t], prefixes + [p], target, u, q);
    assert stack + [t] + [u] == stack + [t, u] && prefixes + [p] + [q] == prefixes + [p, q];
  }

  lemma TakeBlock(blocks: seq<seq<Contact>>, taken: nat, block: seq<Contact>, rest: seq<seq<Contact>>)
    requires taken <= |blocks| && blocks[taken..] == [block] + rest
    ensures taken < |blocks| && blocks[taken + 1..] == rest
    ensures Flatten(blocks[..taken + 1]) == Flatten(blocks[..taken]) + block
  {
    assert blocks[taken + 1..] == blocks[taken..][1..];
    assert blocks[taken] == blocks[taken..][0] == block;
    assert blocks[..taken + 1] == blocks[..taken] + [block];
    FlattenConcat(blocks[..taken], [block]);
    assert Flatten([block]) == block;
  }

  /** The loop's hold on its stack: what it is made of and how deep its branch is. */
  ghost predicate Pending(stack: seq<Tree>, prefixes: seq<seq<bool>>, bitIndex: nat, self: Id, max: nat) {
    StackWellFormed(stack, prefixes, self, max) && IndexIsDepth(stack, prefixes, bitIndex)
  }

  lemma PushKeeps(stack: seq<Tree>, prefixes: seq<seq<bool>>, far: Tree, p: seq<bool>, near: Tree, q: seq<bool>,
                  d: nat, self: Id, max: nat)
    requires StackWellFormed(stack, prefixes, self, max)
    requires WellFormed(far, p, self, max) && WellFormed(near, q, self, max)
    requires |p| == |q| == d && (far.Leaf? || near.Leaf?)
    requires forall k :: 0 <= k < |stack| ==> stack[k].Leaf?
    ensures StackWellFormed(stack + [far, near], prefixes + [p, q], self, max)
    ensures IndexIsDepth(stack + [far, near], prefixes + [p, q], d)
  {
  }

  /** Replacing the branch on top by its children, the nearer one on top. */
  lemma PopBranch(stack: seq<Tree>, prefixes: seq<seq<bool>>, bitIndex: nat, target: Id, self: Id, max: nat)
    requires Pending(stack, prefixes, bitIndex, self, max)
    requires stack != [] && stack[|stack| - 1].Branch?
    ensures bitIndex == |prefixes[|stack| - 1]| < ID_BITS
    ensures var n, bit := |stack| - 1, target[bitIndex];
            var stack' := stack[..n] + [Child(stack[n], !bit), Child(stack[n], bit)];
            var prefixes' := prefixes[..n] + [prefixes[n] + [!bit], prefixes[n] + [bit]];
            && Pending(stack', prefixes', bitIndex + 1, self, max)
            && StackBlocks(stack', prefixes', target) == StackBlocks(stack, prefixes, target)
            && StackSize(stack') < StackSize(stack)
  {
    var n := |stack| - 1;
    var t, prefix := stack[n], prefixes[n];
    assert WellFormed(t, prefix, self, max);
    var bit := target[bitIndex];
    var near, far := Child(t, bit), Child(t, !bit);
    OneBranchPerDepth(t, prefix, self, max);
    ChildWellFormed(t, prefix, self, max, bit);
    ChildWellFormed(t, prefix, self, max, !bit);
    PushKeeps(stack[..n], prefixes[..n], far, prefix + [!bit], near, prefix + [bit], bitIndex + 1, self, max);
    StackPush2(stack[..n], prefixes[..n], target, far, prefix + [!bit], near, prefix + [bit]);
  }

  lemma PopLeaf(stack: seq<Tree>, prefixes: seq<seq<bool>>, bitIndex: nat, target: Id, self: Id, max: nat)
    requires Pending(stack, prefixes, bitIndex, self, max)
    requires stack != [] && stack[|stack| - 1].Leaf?
    ensures var n := |stack| - 1;
            && Pending(stack[..n], prefixes[..n], bitIndex, self, max)
            && StackBlocks(stack, prefixes, target)
               == [ContactsOf(stack[n].bucket.items)] + StackBlocks(stack[..n], prefixes[..n], target)
            && StackSize(stack[..n]) < StackSize(stack)
  {
  }

  method CollectClosest(root: Tree, target: Id, limit: nat, ghost self: Id, ghost max: nat)
      returns (contacts: seq<Contact>)
    requires WellFormed(root, [], self, max)
    ensures Enough(contacts, root, target, limit)
  {
    contacts := [];
    ghost var taken := 0;
    var stack := [root];
    var bitIndex := 0;
    ghost var prefixes: seq<seq<bool>> := [[]];
    ghost var blocks := Blocks(root, target, 0);
    StackPush([], [], target, root, []);
    assert stack == [] + [root] && prefixes == [] + [[]];
    while stack != []
      invariant Pending(stack, prefixes, bitIndex, self, max)
      invariant taken <= |blocks| && contacts == Flatten(blocks[..taken])
      invariant StackBlocks(stack, prefixes, target) == blocks[taken..]
      decreases StackSize(stack)
    {
      var n := |stack| - 1;
      var tree := stack[n];
      ghost var prefix := prefixes[n];
      if |contacts| >= limit {
        break;
      }
      match tree {
        case Branch(left, right) =>
          PopBranch(stack, prefixes, bitIndex, target, self, max);
          if target[bitIndex] {
            stack := stack[..n] + [right, left];
            prefixes := prefixes[..n] + [prefix + [false], prefix + [true]];
          } else {
            stack := stack[..n] + [left, right];
            prefixes := prefixes[..n] + [prefix + [true], prefix + [false]];
          }
          bitIndex := bitIndex + 1;
        case Leaf(bucket, _) =>
          PopLeaf(stack, prefixes, bitIndex, target, self, max);
          stack, prefixes := stack[..n], prefixes[..n];
          TakeBlock(blocks, taken, ContactsOf(bucket.items), StackBlocks(stack, prefixes, target));
          contacts := contacts + ContactsOf(bucket.items);
          taken := taken + 1;
      }
    }
    assert EnoughAt(contacts, root, target, limit, taken);
  }

  // ---- The table ----

  /** One split of the insertion loop. */
  lemma SplitAt(self: Id, max: nat, t: Tree, id: Id, d: nat)
    requires WellFormed(t, [], self, max) && max >= 3
    requires d < ID_BITS && IsPath(t, id[0..d]) && NeedsSplit(Sub(t, id[0..d]))
    ensures d + 1 < ID_BITS
    ensures WellFormed(Put(t, id[0..d], SplitLeaf(Sub(t, id[0..d]), d, self)), [], self, max)
  {
    var path := id[0..d];
    SubWellFormed(t, [], self, max, path);
    assert [] + path == path;
    CrowdedLeafIsShallow(Sub(t, path).bucket.items, path);
    SplitWellFormed(Sub(t, path), path, self, max);
    PutWellFormed(t, [], self, max, path, SplitLeaf(Sub(t, path), d, self));
  }

  lemma IntoBranch(t: Tree, id: Id, d: nat, u: Tree)
    requires d < ID_BITS && IsPath(t, id[0..d]) && u.Branch?
    ensures IsPath(Put(t, id[0..d], u), id[0..d + 1])
    ensures Sub(Put(t, id[0..d], u), id[0..d + 1]) == Child(u, id[d])
  {
    PutTwice(t, id[0..d], u);
    PathExtend(Put(t, id[0..d], u), id[0..d], id[d]);
    assert id[0..d] + [id[d]] == id[0..d + 1];
  }

  /** The end of the insertion loop, in a leaf with room. */
  lemma InsertInRoom(self: Id, max: nat, t0: Tree, t: Tree, c: Item, d: nat, after: seq<Item>)
    requires WellFormed(t, [], self, max) && d < ID_BITS
    requires IsPath(t, c.contact.id[0..d]) && Sub(t, c.contact.id[0..d]).Leaf?
    requires var b := Sub(t, c.contact.id[0..d]).bucket; |b.items| < b.maxSize && Stored(b.items, c, after)
    requires Route(t0, c.contact.id).Some?
    requires Grow(t, 0, c.contact.id, self) == Grow(t0, 0, c.contact.id, self)
    ensures var t' := SetItems(t, c.contact.id[0..d], after);
            WellFormed(t', [], self, max) && InsertStep(self, t0, c, t', Ok(()))
  {
    var id := c.contact.id;
    SubWellFormed(t, [], self, max, id[0..d]);
    GrowDone(t, 0, d, id, self);
    WalkIs(t, 0, d, id);
    assert id[0..] == id;
    StoreInRoom(t, self, max, id[0..d], c, after);
  }

  /** The end of the insertion loop, in a full leaf that may not split. */
  lemma InsertRefused(self: Id, t0: Tree, t: Tree, c: Item, d: nat)
    requires d < ID_BITS && IsPath(t, c.contact.id[0..d])
    requires var leaf := Sub(t, c.contact.id[0..d]);
             leaf.Leaf? && !leaf.maySplit && |leaf.bucket.items| >= leaf.bucket.maxSize
    requires Route(t0, c.contact.id).Some?
    requires Grow(t, 0, c.contact.id, self) == Grow(t0, 0, c.contact.id, self)
    ensures InsertStep(self, t0, c, t, Err(Full(ContactsOf(Sub(t, c.contact.id[0..d]).bucket.items), c)))
  {
    GrowDone(t, 0, d, c.contact.id, self);
    WalkIs(t, 0, d, c.contact.id);
    assert c.contact.id[0..] == c.contact.id;
  }

  /** What one round of the insertion loop does with a leaf. */
  datatype LeafOutcome = StoredIn(leaf: Tree) | Refused(full: Full) | SplitInto(branch: Tree)

  method InsertIntoLeaf(leaf: Tree, candidate: Item, d: nat, self: Id) returns (r: LeafOutcome)
    requires leaf.Leaf? && ValidBucket(leaf.bucket) && d < ID_BITS
    ensures r.StoredIn? ==>
              && |leaf.bucket.items| < leaf.bucket.maxSize
              && r.leaf.Leaf? && Stored(leaf.bucket.items, candidate, r.leaf.bucket.items)
              && r.leaf == Leaf(Bucket(r.leaf.bucket.items, leaf.bucket.maxSize), leaf.maySplit)
    ensures r.Refused? ==>
              && |leaf.bucket.items| >= leaf.bucket.maxSize && !leaf.maySplit
              && r.full == Full(ContactsOf(leaf.bucket.items), candidate)
    ensures r.SplitInto? ==> NeedsSplit(leaf) && r.branch == SplitLeaf(leaf, d, self)
  {
    var bucket := new KBucket(leaf.bucket);
    var stored := bucket.Insert(candidate);
    if stored.Ok? {
      return StoredIn(Leaf(bucket.View(), leaf.maySplit));
    }
    if !leaf.maySplit {
      return Refused(Full(ContactsOf(bucket.items), candidate));
    }
    var left, right := bucket.Split(d);
    return SplitInto(Branch(Leaf(left.View(), self[d]), Leaf(right.View(), !self[d])));
  }

  /** The insertion loop has split its way down to `leaf`, at depth `d`. */
  ghost predicate Descending(t0: Tree, t: Tree, self: Id, max: nat, id: Id, d: nat, leaf: Tree) {
    && WellFormed(t, [], self, max) && max >= 3
    && d < ID_BITS && IsPath(t, id[0..d]) && leaf == Sub(t, id[0..d]) && leaf.Leaf?
    && Grow(t, 0, id, self) == Grow(t0, 0, id, self) && Route(t0, id).Some?
  }

  lemma DescendingLeaf(t0: Tree, t: Tree, self: Id, max: nat, id: Id, d: nat, leaf: Tree)
    requires Descending(t0, t, self, max, id, d, leaf)
    ensures ValidBucket(leaf.bucket)
  {
    SubWellFormed(t, [], self, max, id[0..d]);
  }

  lemma DescendFurther(t0: Tree, t: Tree, self: Id, max: nat, id: Id, d: nat, leaf: Tree)
    requires Descending(t0, t, self, max, id, d, leaf) && NeedsSplit(leaf)
    ensures var u := SplitLeaf(leaf, d, self);
            Descending(t0, Put(t, id[0..d], u), self, max, id, d + 1, Child(u, id[d]))
  {
    SplitAt(self, max, t, id, d);
    GrowAlong(t, 0, d, id, self);
    IntoBranch(t, id, d, SplitLeaf(leaf, d, self));
  }

  class RoutingTable {
    var root: Tree
    const selfId: Id
    ghost const maxBucketSize: nat

    ghost predicate Valid()
      reads this
    {
      WellFormed(root, [], selfId, maxBucketSize) && maxBucketSize >= 3
    }

    /** A table of any bucket size; below three it can be driven into a panic, as
        RoutingRuns.SafeExactlyFromThree states. */
    constructor (selfId: Id, maxBucketSize: nat)
      ensures root == NewTree(maxBucketSize) && (maxBucketSize >= 3 ==> Valid())
      ensures this.selfId == selfId && this.maxBucketSize == maxBucketSize
    {
      this.selfId := selfId;
      this.maxBucketSize := maxBucketSize;
      root := NewTree(maxBucketSize);
    }

    /** Walks from the root to the leaf of an id. */
    method Traverse(id: Id) returns (leaf: Tree, depth: nat)
      requires Valid()
      ensures depth < ID_BITS && Route(root, id) == Some(id[..depth]) && leaf == Sub(root, id[..depth])
    {
      leaf := root;
      for i := 0 to ID_BITS
        invariant IsPath(root, id[..i]) && leaf == Sub(root, id[..i])
      {
        match leaf {
          case Leaf(_, _) =>
            assert id[0..] == id && id[0..i] == id[..i];
            WalkIs(root, 0, i, id);
            return leaf, i;
          case Branch(left, right) =>
            PathExtend(root, id[..i], id[i]);
            assert id[..i + 1] == id[..i] + [id[i]];
            leaf := if id[i] then left else right;
        }
      }
      SubWellFormed(root, [], selfId, maxBucketSize, id[..ID_BITS]);
      assert false;
    }

    method Insert(candidate: Item) returns (r: Result<(), Full>)
      requires Valid()
      modifies this`root
      ensures Valid()
      ensures InsertStep(selfId, old(root), candidate, root, r)
    {
      var id := candidate.contact.id;
      var leaf, d := Traverse(id);
      assert id[0..d] == id[..d];
      while true
        invariant Descending(old(root), root, selfId, maxBucketSize, id, d, leaf)
        decreases ID_BITS - d
      {
        DescendingLeaf(old(root), root, selfId, maxBucketSize, id, d, leaf);
        var outcome := InsertIntoLeaf(leaf, candidate, d, selfId);
        match outcome {
          case StoredIn(stored) =>
            InsertInRoom(selfId, maxBucketSize, old(root), root, candidate, d, stored.bucket.items);
            root := Put(root, id[0..d], stored);
            return Ok(());
          case Refused(full) =>
            InsertRefused(selfId, old(root), root, candidate, d);
            return Err(full);
          case SplitInto(branch) =>
            DescendFurther(old(root), root, selfId, maxBucketSize, id, d, leaf);
            root := Put(root, id[0..d], branch);
            leaf := if id[d] then branch.left else branch.right;
            d := d + 1;
        }
      }
    }

    method MustInsert(candidate: Item)
      requires Valid()
      modifies this`root
      ensures Valid()
      ensures MustInsertStep(old(root), candidate, root)
    {
      var id := candidate.contact.id;
      var leaf, d := Traverse(id);
      SubWellFormed(root, [], selfId, maxBucketSize, id[..d]);
      var bucket := new KBucket(leaf.bucket);
      bucket.MustInsert(candidate);
      root := Put(root, id[..d], Leaf(bucket.View(), leaf.maySplit));
      assert root == SetItems(old(root), id[..d], bucket.items);
      MustInsertConserves(selfId, maxBucketSize, old(root), candidate, root);
    }

    method Remove(contact: Contact) returns (r: Option<Item>)
      requires Valid()
      modifies this`root
      ensures Valid()
      ensures RemoveStep(old(root), contact, root, r)
    {
      var leaf, d := Traverse(contact.id);
      SubWellFormed(root, [], selfId, maxBucketSize, contact.id[..d]);
      var bucket := new KBucket(leaf.bucket);
      r := bucket.Remove(contact);
      root := Put(root, contact.id[..d], Leaf(bucket.View(), leaf.maySplit));
      RemoveConserves(selfId, maxBucketSize, old(root), contact, root, r);
    }

    /** The `limit` contacts closest to the target, nearest first. */
    method GetClosestWithLimit(target: Id, limit: nat) returns (contacts: seq<Contact>)
      requires Valid()
      ensures contacts == Closest(root, target, limit)
      ensures NearestStored(contacts, Elements(root), target, limit)
    {
      ClosestIsNearest(root, selfId, maxBucketSize, target, limit);
      contacts := CollectClosest(root, target, limit, selfId, maxBucketSize);
      EnoughBlocks(root, selfId, maxBucketSize, target, limit, contacts);
      contacts := Take(SortBy(contacts, DistanceKey(target)), limit);
    }

    /** Every bucket with its prefix. */
    method Iter() returns (r: seq<(Bucket, seq<bool>)>)
      ensures r == Buckets(root, [])
    {
      r := [];
      var stack: seq<(Tree, seq<bool>)> := [(root, [])];
      while stack != []
        invariant r + StackBuckets(stack) == Buckets(root, [])
        decreases StackPairSize(stack)
      {
        var n := |stack| - 1;
        var (tree, prefix) := stack[n];
        stack := stack[..n];
        match tree {
          case Branch(left, right) =>
            PushPairs(stack, (right, prefix + [false]), (left, prefix + [true]));
            stack := stack + [(right, prefix + [false]), (left, prefix + [true])];
          case Leaf(bucket, _) =>
            r := r + [(bucket, prefix)];
        }
      }
    }
  }

  ghost function StackBuckets(stack: seq<(Tree, seq<bool>)>): seq<(Bucket, seq<bool>)> {
    if stack == [] then []
    else Buckets(stack[|stack| - 1].0, stack[|stack| - 1].1) + StackBuckets(stack[..|stack| - 1])
  }

  ghost function StackPairSize(stack: seq<(Tree, seq<bool>)>): nat {
    if stack == [] then 0 else TreeSize(stack[|stack| - 1].0) + StackPairSize(stack[..|stack| - 1])
  }

  lemma PushPairs(stack: seq<(Tree, seq<bool>)>, a: (Tree, seq<bool>), b: (Tree, seq<bool>))
    ensures StackBuckets(stack + [a, b]) == Buckets(b.0, b.1) + Buckets(a.0, a.1) + StackBuckets(stack)
    ensures StackPairSize(stack + [a, b]) == TreeSize(b.0) + TreeSize(a.0) + StackPairSize(stack)
  {
    assert (stack + [a, b])[..|stack| + 1] == stack + [a];
    assert (stack + [a])[..|stack|] == stack;
  }

  /**
    The main result about queries: in every run of insertions, forced insertions
    and removals, for every target and every limit, what the loop with one running
    bit index collects answers as sorting all stored contacts does; the answer is
    the `limit` contacts of least distance; and exactly one leaf may split.
   */
  lemma EveryRunAnswersClosest(self: Id, max: nat, ops: seq<Op>, ts: seq<Tree>, n: nat,
                               target: Id, limit: nat, contacts: seq<Contact>)
    requires Run(self, max, ops, ts) && max >= 3 && n < |ts|
    requires Enough(contacts, ts[n], target, limit)
    ensures Take(SortBy(contacts, DistanceKey(target)), limit) == Closest(ts[n], target, limit)
    ensures LeastOf(Closest(ts[n], target, limit), Contacts(ts[n]), DistanceKey(target), limit)
    ensures SplittableLeaves(ts[n]) == 1
  {
    RunWellFormed(self, max, ops, ts, n);
    EnoughBlocks(ts[n], self, max, target, limit, contacts);
    ClosestIsClosest(ts[n], self, max, target, limit);
    SplittableCount(ts[n], [], self, max);
  }

  // ---- Answers told from what is stored ----

  ghost predicate IsStored(stored: set<Item>, c: Contact) {
    exists y :: y in stored && y.contact == c
  }

  /** Stored contacts, the nearest first, up to the limit; whoever is left out is farther
      than all of them. */
  ghost predicate NearestStored(r: seq<Contact>, stored: set<Item>, target: Id, limit: nat) {
    && |r| <= limit
    && Ascends(r, target)
    && (forall c :: c in r ==> IsStored(stored, c))
    && (forall y :: y in stored ==> y.contact in r || (|r| == limit && AllNearer(r, target, y.contact)))
  }

  ghost predicate AllNearer(r: seq<Contact>, target: Id, d: Contact) {
    forall c :: c in r ==> Distance(target, c.id) < Distance(target, d.id)
  }

  lemma {:induction false} ContactsAreStored(t: Tree, c: Contact)
    ensures c in Contacts(t) <==> IsStored(Elements(t), c)
  {
    match t {
      case Leaf(b, _) =>
        var cs := ContactsOf(b.items);
        if c in cs {
          var k :| 0 <= k < |cs| && cs[k] == c;
          assert b.items[k] in Elements(t);
        }
        if IsStored(Elements(t), c) {
          var y :| y in Elements(t) && y.contact == c;
          var k :| 0 <= k < |b.items| && b.items[k] == y;
          assert cs[k] == c;
        }
      case Branch(l, r) =>
        ContactsAreStored(l, c);
        ContactsAreStored(r, c);
        assert Elements(t) == Elements(l) + Elements(r);
    }
  }

  ghost predicate Ascends(s: seq<Contact>, target: Id) {
    forall i, j :: 0 <= i < j < |s| ==> Distance(target, s[i].id) < Distance(target, s[j].id)
  }

  lemma SortedContacts(t: Tree, self: Id, max: nat, target: Id)
    requires WellFormed(t, [], self, max)
    ensures Ascends(SortBy(Contacts(t), DistanceKey(target)), target)
    ensures multiset(SortBy(Contacts(t), DistanceKey(target))) == multiset(Contacts(t))
  {
    var sorted, key := SortBy(Contacts(t), DistanceKey(target)), DistanceKey(target);
    SortBySorts(Contacts(t), key);
    ContactsDistinctKeys(t, self, max, target);
    DistinctOfPermutation(Contacts(t), sorted, key);
    forall i, j | 0 <= i < j < |sorted| ensures Distance(target, sorted[i].id) < Distance(target, sorted[j].id) {
      assert key(sorted[i]) <= key(sorted[j]) && key(sorted[i]) != key(sorted[j]);
    }
  }

  ghost predicate Lists(s: seq<Contact>, stored: set<Item>) {
    forall c :: c in s <==> IsStored(stored, c)
  }

  lemma ClosestIsNearest(t: Tree, self: Id, max: nat, target: Id, limit: nat)
    requires WellFormed(t, [], self, max)
    ensures NearestStored(Closest(t, target, limit), Elements(t), target, limit)
  {
    var sorted := SortBy(Contacts(t), DistanceKey(target));
    SortedContacts(t, self, max, target);
    forall c ensures c in sorted <==> IsStored(Elements(t), c) {
      assert c in multiset(sorted) <==> c in multiset(Contacts(t));
      ContactsAreStored(t, c);
    }
    TakenNearest(sorted, Elements(t), target, limit);
  }

  lemma TakenNearest(sorted: seq<Contact>, stored: set<Item>, target: Id, limit: nat)
    requires Ascends(sorted, target) && Lists(sorted, stored)
    ensures NearestStored(Take(sorted, limit), stored, target, limit)
  {
    var r := Take(sorted, limit);
    assert forall c :: c in r ==> c in sorted;
    forall y | y in stored ensures y.contact in r || (|r| == limit && AllNearer(r, target, y.contact)) {
      assert IsStored(stored, y.contact);
      if y.contact !in r {
        LeftOutIsFarther(sorted, target, limit, y.contact);
      }
    }
  }

  lemma LeftOutIsFarther(sorted: seq<Contact>, target: Id, limit: nat, d: Contact)
    requires Ascends(sorted, target) && d in sorted && d !in Take(sorted, limit)
    ensures |Take(sorted, limit)| == limit && AllNearer(Take(sorted, limit), target, d)
  {
    var k :| 0 <= k < |sorted| && sorted[k] == d;
    var r := Take(sorted, limit);
    assert forall i :: 0 <= i < |r| ==> r[i] == sorted[i];
  }

  /** In every run, whatever the loop collects is answered with the nearest stored
      contacts. */
  lemma EveryRunReturnsNearest(self: Id, max: nat, ops: seq<Op>, ts: seq<Tree>, n: nat,
                               target: Id, limit: nat, contacts: seq<Contact>)
    requires Run(self, max, ops, ts) && max >= 3 && n < |ts|
    requires Enough(contacts, ts[n], target, limit)
    ensures NearestStored(Take(SortBy(contacts, DistanceKey(target)), limit), Elements(ts[n]), target, limit)
  {
    RunWellFormed(self, max, ops, ts, n);
    EnoughBlocks(ts[n], self, max, target, limit, contacts);
    ClosestIsNearest(ts[n], self, max, target, limit);
  }
}
