/**
  K-buckets (rust/bittorrent/dht/src/kbucket.rs): a bounded list of contacts
  with distinct ids, kept in ascending order of the time last seen.
 */
module KBuckets {
  import opened Common
  import opened NodeIds

  datatype Item = Item(contact: Contact, lastSeen: nat)

  /** The value of a bucket: what its owner, a leaf of the routing tree, holds. */
  datatype Bucket = Bucket(items: seq<Item>, maxSize: nat)

  ghost predicate DistinctIds(items: seq<Item>) {
    forall i, j :: 0 <= i < j < |items| ==> items[i].contact.id != items[j].contact.id
  }

  ghost predicate SeenSorted(items: seq<Item>) {
    forall i, j :: 0 <= i < j < |items| ==> items[i].lastSeen <= items[j].lastSeen
  }

  ghost predicate ValidBucket(b: Bucket) {
    |b.items| <= b.maxSize && DistinctIds(b.items) && SeenSorted(b.items)
  }

  function Find(items: seq<Item>, id: Id): (r: Option<nat>)
    ensures r.Some? ==> r.value < |items| && items[r.value].contact.id == id
                        && forall k :: 0 <= k < r.value ==> items[k].contact.id != id
    ensures r.None? ==> forall k :: 0 <= k < |items| ==> items[k].contact.id != id
  {
    if items == [] then None
    else if items[0].contact.id == id then Some(0)
    else match Find(items[1..], id)
      case None => None
      case Some(i) =>
        assert forall k :: 1 <= k < i + 1 ==> items[k] == items[1..][k - 1];
        Some(i + 1)
  }

  function RemoveAt(items: seq<Item>, i: nat): seq<Item>
    requires i < |items|
  {
    items[..i] + items[i + 1..]
  }

  /** The items without the one that carries `id`. */
  function Without(items: seq<Item>, id: Id): seq<Item> {
    match Find(items, id)
    case None => items
    case Some(i) => RemoveAt(items, i)
  }

  /** The candidate as it is stored: an incumbent's later time of sight survives. */
  function Refreshed(items: seq<Item>, candidate: Item): Item {
    match Find(items, candidate.contact.id)
    case None => candidate
    case Some(i) => candidate.(lastSeen := Max(items[i].lastSeen, candidate.lastSeen))
  }

  /** A place for an item seen at `time`.  Among equal times the binary search of
      the standard library may return any place. */
  ghost predicate InsertPoint(items: seq<Item>, time: nat, i: int) {
    && 0 <= i <= |items|
    && (forall k :: 0 <= k < i ==> items[k].lastSeen <= time)
    && (forall k :: i <= k < |items| ==> time <= items[k].lastSeen)
  }

  function InsertAt(items: seq<Item>, i: int, x: Item): seq<Item>
    requires 0 <= i <= |items|
  {
    items[..i] + [x] + items[i..]
  }

  /** `after` is `before` with the candidate stored in it. */
  ghost predicate Stored(before: seq<Item>, candidate: Item, after: seq<Item>) {
    var rest, x := Without(before, candidate.contact.id), Refreshed(before, candidate);
    exists i :: InsertPoint(rest, x.lastSeen, i) && after == InsertAt(rest, i, x)
  }

  function ItemSet(items: seq<Item>): set<Item> {
    set x | x in items
  }

  /** `before` less what shares the candidate's id, plus the refreshed candidate. */
  ghost predicate Replaces(before: set<Item>, candidate: Item, x: Item, after: set<Item>) {
    && after == (set y | y in before && y.contact.id != candidate.contact.id) + {x}
    && x.contact == candidate.contact
    && x.lastSeen >= candidate.lastSeen
    && (forall y :: y in before && y.contact.id == candidate.contact.id ==> x.lastSeen >= y.lastSeen)
    && (x.lastSeen == candidate.lastSeen
        || exists y :: y in before && y.contact.id == candidate.contact.id && x.lastSeen == y.lastSeen)
  }

  ghost predicate Replaced(before: set<Item>, candidate: Item, after: set<Item>) {
    exists x :: Replaces(before, candidate, x, after)
  }

  /** The items whose id has bit `bit` equal to `v`, in their order. */
  function WithBit(items: seq<Item>, bit: nat, v: bool): seq<Item>
    requires bit < ID_BITS
  {
    if items == [] then []
    else (if items[0].contact.id[bit] == v then [items[0]] else []) + WithBit(items[1..], bit, v)
  }

  /** What eviction leaves: the most recently seen items, with room for one more. */
  function Evicted(b: Bucket): seq<Item>
    requires b.maxSize > 0
  {
    if |b.items| < b.maxSize then b.items else b.items[|b.items| - b.maxSize + 1..]
  }

  lemma RemoveAtOrder(items: seq<Item>, i: nat)
    requires i < |items| && DistinctIds(items) && SeenSorted(items)
    ensures DistinctIds(RemoveAt(items, i)) && SeenSorted(RemoveAt(items, i))
  {
    var rest := RemoveAt(items, i);
    assert forall k :: 0 <= k < |rest| ==> rest[k] == items[if k < i then k else k + 1];
  }

  lemma RemoveAtElements(items: seq<Item>, i: nat)
    requires i < |items| && DistinctIds(items)
    ensures ItemSet(RemoveAt(items, i)) == set y | y in items && y.contact.id != items[i].contact.id
  {
    var rest := RemoveAt(items, i);
    forall y | y in items && y.contact.id != items[i].contact.id ensures y in rest {
      var k :| 0 <= k < |items| && items[k] == y;
      assert y == rest[if k < i then k else k - 1];
    }
    forall y | y in rest ensures y in items && y.contact.id != items[i].contact.id {
      var k :| 0 <= k < |rest| && rest[k] == y;
      assert y == items[if k < i then k else k + 1];
    }
  }

  lemma WithoutKeeps(items: seq<Item>, id: Id)
    requires DistinctIds(items) && SeenSorted(items)
    ensures DistinctIds(Without(items, id)) && SeenSorted(Without(items, id))
    ensures |Without(items, id)| <= |items|
    ensures ItemSet(Without(items, id)) == set y | y in items && y.contact.id != id
  {
    match Find(items, id) {
      case None =>
        assert forall y :: y in items ==> y.contact.id != id;
      case Some(i) =>
        RemoveAtOrder(items, i);
        RemoveAtElements(items, i);
    }
  }

  lemma InsertAtOrder(rest: seq<Item>, x: Item, i: int)
    requires DistinctIds(rest) && SeenSorted(rest)
    requires InsertPoint(rest, x.lastSeen, i)
    requires forall k :: 0 <= k < |rest| ==> rest[k].contact.id != x.contact.id
    ensures DistinctIds(InsertAt(rest, i, x)) && SeenSorted(InsertAt(rest, i, x))
  {
    var after := InsertAt(rest, i, x);
    forall k, l | 0 <= k < l < |after|
      ensures after[k].contact.id != after[l].contact.id && after[k].lastSeen <= after[l].lastSeen
    {
      assert after[k] == if k < i then rest[k] else if k == i then x else rest[k - 1];
      assert after[l] == if l < i then rest[l] else if l == i then x else rest[l - 1];
    }
  }

  lemma InsertAtElements(rest: seq<Item>, x: Item, i: int)
    requires 0 <= i <= |rest|
    ensures ItemSet(InsertAt(rest, i, x)) == ItemSet(rest) + {x}
  {
    assert rest == rest[..i] + rest[i..];
  }

  /** Storing keeps the bucket valid and replaces exactly the candidate's id. */
  lemma StoredKeeps(b: Bucket, candidate: Item, after: seq<Item>)
    requires ValidBucket(b) && |b.items| < b.maxSize
    requires Stored(b.items, candidate, after)
    ensures ValidBucket(Bucket(after, b.maxSize))
    ensures Replaces(ItemSet(b.items), candidate, Refreshed(b.items, candidate), ItemSet(after))
  {
    var rest, x := Without(b.items, candidate.contact.id), Refreshed(b.items, candidate);
    var i :| InsertPoint(rest, x.lastSeen, i) && after == InsertAt(rest, i, x);
    WithoutKeeps(b.items, candidate.contact.id);
    forall k | 0 <= k < |rest| ensures rest[k].contact.id != x.contact.id {
      assert rest[k] in ItemSet(rest);
    }
    InsertAtOrder(rest, x, i);
    InsertAtElements(rest, x, i);
    IncumbentIsUnique(b.items, candidate);
  }

  lemma IncumbentIsUnique(items: seq<Item>, candidate: Item)
    requires DistinctIds(items)
    ensures forall y :: y in items && y.contact.id == candidate.contact.id
              ==> Find(items, y.contact.id).Some? && items[Find(items, y.contact.id).value] == y
  {
    forall y | y in items && y.contact.id == candidate.contact.id
      ensures Find(items, y.contact.id).Some? && items[Find(items, y.contact.id).value] == y
    {
      var k :| 0 <= k < |items| && items[k] == y;
    }
  }

  lemma {:induction false} WithBitMember(items: seq<Item>, bit: nat, v: bool, x: Item)
    requires bit < ID_BITS
    ensures x in WithBit(items, bit, v) <==> x in items && x.contact.id[bit] == v
  {
    if items != [] {
      WithBitMember(items[1..], bit, v, x);
    }
  }

  /** `x` may stand before all of `items` in a bucket. */
  ghost predicate Precedes(x: Item, items: seq<Item>) {
    forall k :: 0 <= k < |items| ==> items[k].contact.id != x.contact.id && x.lastSeen <= items[k].lastSeen
  }

  lemma ConsKeeps(x: Item, items: seq<Item>)
    requires Precedes(x, items) && DistinctIds(items) && SeenSorted(items)
    ensures DistinctIds([x] + items) && SeenSorted([x] + items)
  {
  }

  lemma {:induction false} WithBitPrecedes(x: Item, items: seq<Item>, bit: nat, v: bool)
    requires bit < ID_BITS && Precedes(x, items)
    ensures Precedes(x, WithBit(items, bit, v))
    ensures |WithBit(items, bit, v)| <= |items|
  {
    if items != [] {
      WithBitPrecedes(x, items[1..], bit, v);
    }
  }

  lemma {:induction false} WithBitKeeps(items: seq<Item>, bit: nat, v: bool)
    requires bit < ID_BITS
    requires DistinctIds(items) && SeenSorted(items)
    ensures DistinctIds(WithBit(items, bit, v)) && SeenSorted(WithBit(items, bit, v))
    ensures |WithBit(items, bit, v)| <= |items|
  {
    if items != [] {
      WithBitKeeps(items[1..], bit, v);
      WithBitPrecedes(items[0], items[1..], bit, v);
      ConsKeeps(items[0], WithBit(items[1..], bit, v));
    }
  }

  /** Splitting a bucket neither loses nor duplicates an item. */
  lemma {:induction false} WithBitPartition(items: seq<Item>, bit: nat)
    requires bit < ID_BITS
    ensures multiset(WithBit(items, bit, true)) + multiset(WithBit(items, bit, false)) == multiset(items)
  {
    if items != [] {
      WithBitPartition(items[1..], bit);
      assert items == [items[0]] + items[1..];
    }
  }

  class KBucket {
    var items: seq<Item>
    const maxSize: nat

    constructor (b: Bucket)
      ensures View() == b
    {
      items := b.items;
      maxSize := b.maxSize;
    }

    function View(): Bucket
      reads this
    {
      Bucket(items, maxSize)
    }

    ghost predicate Valid()
      reads this
    {
      ValidBucket(View())
    }

    method FindById(contact: Contact) returns (r: Option<nat>)
      ensures r == Find(items, contact.id)
    {
      for i := 0 to |items|
        invariant forall k :: 0 <= k < i ==> items[k].contact.id != contact.id
      {
        if items[i].contact.id == contact.id {
          return Some(i);
        }
      }
      return None;
    }

    method SearchByLastSeen(time: nat) returns (i: nat)
      requires SeenSorted(items)
      ensures InsertPoint(items, time, i)
    {
      i := 0;
      var hi := |items|;
      while i < hi
        invariant i <= hi <= |items|
        invariant forall k :: 0 <= k < i ==> items[k].lastSeen <= time
        invariant forall k :: hi <= k < |items| ==> time <= items[k].lastSeen
      {
        var mid := (i + hi) / 2;
        if items[mid].lastSeen == time {
          return mid;
        } else if items[mid].lastSeen < time {
          i := mid + 1;
        } else {
          hi := mid;
        }
      }
    }

    method Insert(candidate: Item) returns (r: Result<(), Item>)
      requires Valid()
      modifies this`items
      ensures Valid()
      ensures |old(items)| >= maxSize ==> r == Err(candidate) && items == old(items)
      ensures |old(items)| < maxSize ==> r == Ok(()) && Stored(old(items), candidate, items)
    {
      if |items| >= maxSize {
        return Err(candidate);
      }
      var x := candidate;
      var found := FindById(candidate.contact);
      ghost var before := View();
      WithoutKeeps(items, candidate.contact.id);
      if found.Some? {
        var incumbent := items[found.value];
        items := RemoveAt(items, found.value);
        x := candidate.(lastSeen := Max(incumbent.lastSeen, candidate.lastSeen));
      }
      var i := SearchByLastSeen(x.lastSeen);
      assert x == Refreshed(before.items, candidate);
      assert InsertPoint(Without(before.items, candidate.contact.id), x.lastSeen, i);
      items := InsertAt(items, i, x);
      StoredKeeps(before, candidate, items);
      return Ok(());
    }

    /** Like `Insert`, but evicts the least recently seen items first.  A bucket
        that can hold nothing has nothing to evict, and the source panics on it. */
    method MustInsert(candidate: Item)
      requires Valid() && maxSize > 0
      modifies this`items
      ensures Valid()
      ensures Stored(Evicted(old(View())), candidate, items)
    {
      while |items| >= maxSize
        invariant Valid() && |items| <= |old(items)|
        invariant items == old(items)[|old(items)| - |items|..]
        invariant |items| == |old(items)| || |items| >= maxSize - 1
      {
        items := items[1..];
      }
      assert items == Evicted(old(View()));
      var r := Insert(candidate);
    }

    method Remove(contact: Contact) returns (r: Option<Item>)
      requires Valid()
      modifies this`items
      ensures Valid() && items == Without(old(items), contact.id)
      ensures r == match Find(old(items), contact.id) case None => None case Some(i) => Some(old(items)[i])
    {
      WithoutKeeps(items, contact.id);
      var found := FindById(contact);
      if found.None? {
        return None;
      }
      r := Some(items[found.value]);
      items := RemoveAt(items, found.value);
    }

    /** Drains the bucket into two by one bit of the id. */
    method Split(bit: nat) returns (left: KBucket, right: KBucket)
      requires Valid() && bit < ID_BITS
      modifies this`items
      ensures items == [] && fresh(left) && fresh(right)
      ensures left.View() == Bucket(WithBit(old(items), bit, true), maxSize) && left.Valid()
      ensures right.View() == Bucket(WithBit(old(items), bit, false), maxSize) && right.Valid()
    {
      left := new KBucket(Bucket([], maxSize));
      right := new KBucket(Bucket([], maxSize));
      var drained := items;
      items := [];
      WithBitKeeps(drained, bit, true);
      WithBitKeeps(drained, bit, false);
      for i := 0 to |drained|
        invariant fresh(left) && fresh(right) && left != right && items == []
        invariant left.items == WithBit(drained[..i], bit, true)
        invariant right.items == WithBit(drained[..i], bit, false)
      {
        WithBitAppend(drained[..i], drained[i], bit, true);
        WithBitAppend(drained[..i], drained[i], bit, false);
        assert drained[..i + 1] == drained[..i] + [drained[i]];
        if drained[i].contact.id[bit] {
          left.items := left.items + [drained[i]];
        } else {
          right.items := right.items + [drained[i]];
        }
      }
      assert drained[..|drained|] == drained;
    }
  }

  lemma {:induction false} WithBitAppend(items: seq<Item>, x: Item, bit: nat, v: bool)
    requires bit < ID_BITS
    ensures WithBit(items + [x], bit, v) == WithBit(items, bit, v) + if x.contact.id[bit] == v then [x] else []
  {
    if items == [] {
      assert items + [x] == [x] && [x][1..] == [];
    } else {
      var both := items + [x];
      assert both[1..] == items[1..] + [x] && both[0] == items[0];
      WithBitAppend(items[1..], x, bit, v);
      var head := if items[0].contact.id[bit] == v then [items[0]] else [];
      assert WithBit(both, bit, v) == head + WithBit(items[1..] + [x], bit, v);
    }
  }
}
