/** The walk over the rules goes outwards: rules that are fewer dependencies away from the
    requested ones are visited earlier (python/foreman/foreman.py). */
module BuildWalks {
  import opened BuildGraphs
  import opened BuildLoaders

  /** Some requested rule needs `l` over `n` dependencies. */
  ghost predicate NeededIn(rules: Rules, labels: seq<Label>, l: Label, n: nat) {
    exists a :: a in labels && NeedsIn(rules, n, a, l)
  }

  /** The least number of dependencies over which `l` is needed. */
  ghost predicate IsDistance(rules: Rules, labels: seq<Label>, l: Label, n: nat) {
    NeededIn(rules, labels, l, n) && forall m: nat :: m < n ==> !NeededIn(rules, labels, l, m)
  }

  // A rule in `front`, not visited yet, depends on `l`.
  ghost predicate Pending(rules: Rules, front: seq<Label>, visited: set<Label>, l: Label) {
    exists x :: x in front && x !in visited && DependsOn(rules, x, l)
  }

  // The first `k` labels of the queue are needed in `d`, the others in `d + 1`.
  ghost predicate InQueue(rules: Rules, labels: seq<Label>, queue: seq<Label>, k: nat, d: nat) {
    && k <= |queue|
    && (forall i :: 0 <= i < k ==> NeededIn(rules, labels, queue[i], d))
    && (forall i :: k <= i < |queue| ==> NeededIn(rules, labels, queue[i], d + 1))
  }

  // Whatever is needed in less than `d` has been visited, and what is needed in `d` has
  // been visited or is at the front.
  ghost predicate BehindFront(rules: Rules, labels: seq<Label>, queue: seq<Label>, visited: set<Label>, k: nat,
                             d: nat) {
    && k <= |queue|
    && (forall l, m: nat :: m < d && NeededIn(rules, labels, l, m) ==> l in visited)
    && (forall l :: NeededIn(rules, labels, l, d) ==> l in visited || l in queue[..k])
  }

  // What is needed in `d + 1` is known or will be queued from the front, and what visited
  // rules depend on is known.
  ghost predicate AheadOfFront(rules: Rules, labels: seq<Label>, queue: seq<Label>, visited: set<Label>, k: nat,
                              d: nat) {
    && k <= |queue|
    && (forall l :: NeededIn(rules, labels, l, d + 1) ==>
          l in visited || l in queue || Pending(rules, queue[..k], visited, l))
    && (forall c, l :: c in visited && DependsOn(rules, c, l) ==> l in visited || l in queue)
  }

  ghost predicate Wave(rules: Rules, labels: seq<Label>, queue: seq<Label>, visited: set<Label>, k: nat, d: nat) {
    && InQueue(rules, labels, queue, k, d)
    && BehindFront(rules, labels, queue, visited, k, d)
    && AheadOfFront(rules, labels, queue, visited, k, d)
  }

  lemma NeededNext(rules: Rules, labels: seq<Label>, x: Label, l: Label, n: nat)
    requires NeededIn(rules, labels, x, n) && DependsOn(rules, x, l)
    ensures NeededIn(rules, labels, l, n + 1)
  {
    var a :| a in labels && NeedsIn(rules, n, a, x);
    assert NeedsIn(rules, n + 1, a, l);
  }

  lemma NeededBefore(rules: Rules, labels: seq<Label>, l: Label, n: nat) returns (x: Label)
    requires NeededIn(rules, labels, l, n + 1)
    ensures NeededIn(rules, labels, x, n) && DependsOn(rules, x, l)
  {
    var a :| a in labels && NeedsIn(rules, n + 1, a, l);
    x :| NeedsIn(rules, n, a, x) && DependsOn(rules, x, l);
  }

  lemma FirstWave(rules: Rules, labels: seq<Label>)
    ensures Wave(rules, labels, labels, {}, |labels|, 0)
  {
    assert labels[..|labels|] == labels;
    forall i | 0 <= i < |labels| ensures NeededIn(rules, labels, labels[i], 0) {
      assert NeedsIn(rules, 0, labels[i], labels[i]);
    }
    forall l | NeededIn(rules, labels, l, 1) ensures Pending(rules, labels, {}, l) {
      var x := NeededBefore(rules, labels, l, 0);
      assert x in labels;
    }
  }

  // The front is used up: the rest of the queue is the next one.
  lemma NextWave(rules: Rules, labels: seq<Label>, queue: seq<Label>, visited: set<Label>, d: nat)
    requires Wave(rules, labels, queue, visited, 0, d)
    ensures Wave(rules, labels, queue, visited, |queue|, d + 1)
  {
    assert queue[..0] == [] && queue[..|queue|] == queue;
    forall l | NeededIn(rules, labels, l, d + 2)
      ensures l in visited || l in queue || Pending(rules, queue, visited, l)
    {
      var x := NeededBefore(rules, labels, l, d + 1);
      assert x in visited || x in queue;
    }
  }

  lemma SkipInWave(rules: Rules, labels: seq<Label>, queue: seq<Label>, visited: set<Label>, k: nat, d: nat)
    requires Wave(rules, labels, queue, visited, k, d) && k > 0 && queue[0] in visited
    ensures Wave(rules, labels, queue[1..], visited, k - 1, d)
  {
    assert queue == [queue[0]] + queue[1..] && queue[..k] == [queue[0]] + queue[1..][..k - 1];
  }

  lemma VisitInWave(rules: Rules, labels: seq<Label>, queue: seq<Label>, visited: set<Label>, k: nat, d: nat)
    requires Wave(rules, labels, queue, visited, k, d) && k > 0 && queue[0] !in visited && queue[0] in rules
    ensures var l := queue[0];
            Wave(rules, labels, queue[1..] + Labels(rules[l].dependencies), visited + {l}, k - 1, d)
    ensures IsDistance(rules, labels, queue[0], d)
  {
    var l, more := queue[0], Labels(rules[queue[0]].dependencies);
    var queue' := queue[1..] + more;
    assert queue'[..|queue| - 1] == queue[1..];
    forall x | DependsOn(rules, l, x) ensures x in queue' {
      LabelsAre(rules, l, x);
    }
    VisitedInQueue(rules, labels, queue, k, d, more);
    VisitedBehind(rules, labels, queue, visited, k, d, queue');
    VisitedAhead(rules, labels, queue, visited, k, d, queue');
  }

  lemma VisitedInQueue(rules: Rules, labels: seq<Label>, queue: seq<Label>, k: nat, d: nat, more: seq<Label>)
    requires InQueue(rules, labels, queue, k, d) && k > 0 && queue[0] in rules
    requires more == Labels(rules[queue[0]].dependencies)
    ensures InQueue(rules, labels, queue[1..] + more, k - 1, d)
  {
    var queue' := queue[1..] + more;
    forall i | k - 1 <= i < |queue'| ensures NeededIn(rules, labels, queue'[i], d + 1) {
      if i >= |queue| - 1 {
        LabelsAre(rules, queue[0], queue'[i]);
        NeededNext(rules, labels, queue[0], queue'[i], d);
      } else {
        assert queue'[i] == queue[i + 1];
      }
    }
    forall i | 0 <= i < k - 1 ensures NeededIn(rules, labels, queue'[i], d) {
      assert queue'[i] == queue[i + 1];
    }
  }

  lemma VisitedBehind(rules: Rules, labels: seq<Label>, queue: seq<Label>, visited: set<Label>, k: nat, d: nat,
                      queue': seq<Label>)
    requires BehindFront(rules, labels, queue, visited, k, d) && 0 < k <= |queue|
    requires |queue'| >= |queue| - 1 && queue'[..|queue| - 1] == queue[1..]
    ensures BehindFront(rules, labels, queue', visited + {queue[0]}, k - 1, d)
  {
    assert queue'[..k - 1] == queue[1..][..k - 1] && queue[..k] == [queue[0]] + queue[1..][..k - 1];
  }

  lemma VisitedAhead(rules: Rules, labels: seq<Label>, queue: seq<Label>, visited: set<Label>, k: nat, d: nat,
                     queue': seq<Label>)
    requires AheadOfFront(rules, labels, queue, visited, k, d) && 0 < k <= |queue|
    requires |queue'| >= |queue| - 1 && queue'[..|queue| - 1] == queue[1..]
    requires forall x :: DependsOn(rules, queue[0], x) ==> x in queue'
    ensures AheadOfFront(rules, labels, queue', visited + {queue[0]}, k - 1, d)
  {
    var l := queue[0];
    assert forall x :: x in queue ==> x == l || x in queue[1..];
    assert forall x :: x in queue[1..] ==> x in queue';
    assert queue'[..k - 1] == queue[1..][..k - 1] && queue[..k] == [l] + queue[1..][..k - 1];
    forall x | NeededIn(rules, labels, x, d + 1)
      ensures x in visited + {l} || x in queue' || Pending(rules, queue'[..k - 1], visited + {l}, x)
    {
      if x !in visited && x !in queue {
        var y :| y in queue[..k] && y !in visited && DependsOn(rules, y, x);
        assert y == l || y in queue'[..k - 1];
      }
    }
  }

  /** The distances of the visited rules never decrease. */
  ghost predicate Outwards(rules: Rules, labels: seq<Label>, order: seq<Label>, distances: seq<nat>) {
    && |distances| == |order|
    && (forall i :: 0 <= i < |order| ==> IsDistance(rules, labels, order[i], distances[i]))
    && (forall i, j :: 0 <= i < j < |order| ==> distances[i] <= distances[j])
  }

  ghost predicate AtLeast(distances: seq<nat>, d: nat) {
    forall i :: 0 <= i < |distances| ==> d <= distances[i]
  }

  lemma FirstDistance(rules: Rules, labels: seq<Label>, order: seq<Label>, d: nat, rest: seq<nat>)
    requires order != [] && IsDistance(rules, labels, order[0], d)
    requires Outwards(rules, labels, order[1..], rest) && AtLeast(rest, d)
    ensures Outwards(rules, labels, order, [d] + rest) && AtLeast([d] + rest, d)
  {
    var distances := [d] + rest;
    assert forall i :: 0 < i < |order| ==> order[i] == order[1..][i - 1] && distances[i] == rest[i - 1];
  }

  lemma {:induction false} WavesGoOutwards(rules: Rules, labels: seq<Label>, queue: seq<Label>, visited: set<Label>,
                                           order: seq<Label>, k: nat, d: nat) returns (distances: seq<nat>)
    requires BreadthFirst(rules, queue, visited, order) && Wave(rules, labels, queue, visited, k, d)
    ensures Outwards(rules, labels, order, distances) && AtLeast(distances, d)
    decreases |order|, |queue|, if k == 0 then 1 else 0
  {
    if queue == [] {
      distances := [];
    } else if k == 0 {
      NextWave(rules, labels, queue, visited, d);
      distances := WavesGoOutwards(rules, labels, queue, visited, order, |queue|, d + 1);
    } else if queue[0] in visited {
      SkipInWave(rules, labels, queue, visited, k, d);
      distances := WavesGoOutwards(rules, labels, queue[1..], visited, order, k - 1, d);
    } else {
      var l := queue[0];
      VisitInWave(rules, labels, queue, visited, k, d);
      var rest := WavesGoOutwards(rules, labels, queue[1..] + Labels(rules[l].dependencies), visited + {l},
                                  order[1..], k - 1, d);
      FirstDistance(rules, labels, order, d, rest);
      distances := [d] + rest;
    }
  }

  /** The walk visits rules in order of their distance from the requested ones. */
  lemma WalkGoesOutwards(rules: Rules, labels: seq<Label>, order: seq<Label>) returns (distances: seq<nat>)
    requires BreadthFirst(rules, labels, {}, order)
    ensures Outwards(rules, labels, order, distances)
  {
    FirstWave(rules, labels);
    distances := WavesGoOutwards(rules, labels, labels, {}, order, |labels|, 0);
  }
}
