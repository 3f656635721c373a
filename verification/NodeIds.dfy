/**
  Node ids, contacts and the XOR metric (rust/bittorrent/dht/src/lib.rs).
  An id is its bit string, most significant bit first.
 */
module NodeIds {
  import opened Common

  const ID_BITS: nat := 160

  type Id = bits: seq<bool> | |bits| == ID_BITS witness seq(ID_BITS, i => false)

  /** Socket addresses are only compared, so a number stands for each. */
  type Endpoint = nat

  datatype Contact = Contact(id: Id, endpoint: Endpoint)

  /** The number a bit string denotes, most significant bit first. */
  function Value(bits: seq<bool>): nat {
    if bits == [] then 0
    else (if bits[0] then Pow2(|bits| - 1) else 0) + Value(bits[1..])
  }

  function Xor(a: seq<bool>, b: seq<bool>): (r: seq<bool>)
    requires |a| == |b|
    ensures |r| == |a|
    ensures forall i :: 0 <= i < |a| ==> r[i] == (a[i] != b[i])
  {
    seq(|a|, i requires 0 <= i < |a| => a[i] != b[i])
  }

  function Distance(src: Id, dst: Id): nat {
    Value(Xor(src, dst))
  }

  /** The sort key of contacts around `target`. */
  function DistanceKey(target: Id): Contact -> int {
    (c: Contact) => Distance(target, c.id)
  }

  /** The derived ordering of two bit arrays of equal length: at the first
      difference the smaller one has the bit clear. */
  ghost predicate LexLess(x: seq<bool>, y: seq<bool>)
    requires |x| == |y|
  {
    exists d :: 0 <= d < |x| && x[..d] == y[..d] && !x[d] && y[d]
  }

  lemma {:induction false} ValueBound(bits: seq<bool>)
    ensures Value(bits) < Pow2(|bits|)
  {
    if bits != [] {
      ValueBound(bits[1..]);
    }
  }

  lemma {:induction false} FirstDifferenceDecides(x: seq<bool>, y: seq<bool>, d: nat)
    requires |x| == |y| && d < |x|
    requires x[..d] == y[..d] && !x[d] && y[d]
    ensures Value(x) < Value(y)
  {
    if d == 0 {
      ValueBound(x[1..]);
    } else {
      assert x[0] == x[..d][0] == y[..d][0] == y[0];
      assert x[1..][..d - 1] == x[..d][1..] == y[..d][1..] == y[1..][..d - 1];
      FirstDifferenceDecides(x[1..], y[1..], d - 1);
    }
  }

  lemma {:induction false} FirstDifference(x: seq<bool>, y: seq<bool>) returns (d: nat)
    requires |x| == |y| && x != y
    ensures d < |x| && x[..d] == y[..d] && x[d] != y[d]
  {
    if x[0] != y[0] {
      d := 0;
    } else {
      assert x == [x[0]] + x[1..] && y == [y[0]] + y[1..];
      var e := FirstDifference(x[1..], y[1..]);
      d := e + 1;
      assert x[..d] == [x[0]] + x[1..][..e] && y[..d] == [y[0]] + y[1..][..e];
    }
  }

  /** Comparing distances as numbers is the derived comparison of bit arrays. */
  lemma DistanceOrderIsLexicographic(target: Id, a: Id, b: Id)
    ensures Distance(target, a) < Distance(target, b) <==> LexLess(Xor(target, a), Xor(target, b))
  {
    var x, y := Xor(target, a), Xor(target, b);
    if LexLess(x, y) {
      var d :| 0 <= d < |x| && x[..d] == y[..d] && !x[d] && y[d];
      FirstDifferenceDecides(x, y, d);
    }
    if Value(x) < Value(y) {
      var d := FirstDifference(x, y);
      if x[d] {
        FirstDifferenceDecides(y, x, d);
      }
    }
  }

  /** XOR is unidirectional: a distance from `target` names one id only. */
  lemma DistanceIsUnidirectional(target: Id, a: Id, b: Id)
    requires Distance(target, a) == Distance(target, b)
    ensures a == b
  {
    if a != b {
      var d := FirstDifference(a, b);
      CloserAtBit(target, if a[d] == target[d] then a else b, if a[d] == target[d] then b else a, d);
    }
  }

  /** Two ids that part at bit `d`: the one that takes the target's bit is closer,
      whatever the bits before `d` are. */
  lemma CloserAtBit(target: Id, near: Id, far: Id, d: nat)
    requires d < ID_BITS && near[..d] == far[..d]
    requires near[d] == target[d] && far[d] != target[d]
    ensures Distance(target, near) < Distance(target, far)
  {
    var x, y := Xor(target, near), Xor(target, far);
    forall i | 0 <= i < d ensures x[i] == y[i] {
      assert near[i] == near[..d][i] == far[..d][i] == far[i];
    }
    assert x[..d] == y[..d];
    FirstDifferenceDecides(x, y, d);
  }

  /** An id under a prefix is under exactly one of its two extensions. */
  lemma PrefixStep(prefix: seq<bool>, id: Id)
    requires |prefix| < ID_BITS && prefix <= id
    ensures prefix + [id[|prefix|]] <= id
    ensures !(prefix + [!id[|prefix|]] <= id)
  {
    assert id[..|prefix| + 1] == prefix + [id[|prefix|]];
  }

  /** Pigeonhole: at most 2^(160-d) distinct ids share a prefix of d bits. */
  lemma {:induction false} IdsUnderPrefix(ids: set<Id>, prefix: seq<bool>)
    requires |prefix| <= ID_BITS
    requires forall id :: id in ids ==> prefix <= id
    ensures |ids| <= Pow2(ID_BITS - |prefix|)
    decreases ID_BITS - |prefix|
  {
    if |prefix| == ID_BITS {
      forall id | id in ids ensures id in {prefix} {
        assert id == prefix;
      }
      assert ids <= {prefix};
      SubsetCard(ids, {prefix});
    } else {
      var ones := set id | id in ids && prefix + [true] <= id;
      var zeros := set id | id in ids && prefix + [false] <= id;
      forall id | id in ids ensures id in ones + zeros {
        PrefixStep(prefix, id);
      }
      assert ids == ones + zeros;
      IdsUnderPrefix(ones, prefix + [true]);
      IdsUnderPrefix(zeros, prefix + [false]);
      assert |ids| <= |ones| + |zeros|;
    }
  }
}
