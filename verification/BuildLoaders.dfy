/** Reverse dependencies (python/foreman/foreman.py): a breadth-first walk over the
    forward dependencies that hands every reverse dependency to the rule it names. */
module BuildLoaders {
  import opened Common
  import opened BuildGraphs
  import opened BuildExecutors

  // ---- What the walk should find ----

  ghost predicate DependsOn(rules: Rules, a: Label, b: Label) {
    a in rules && exists d :: d in rules[a].dependencies && d.rule == b
  }

  ghost predicate NeedsIn(rules: Rules, n: nat, a: Label, b: Label)
    decreases n
  {
    if n == 0 then a == b else exists c :: NeedsIn(rules, n - 1, a, c) && DependsOn(rules, c, b)
  }

  /** `l` is in the forward closure of `labels`. */
  ghost predicate InClosure(rules: Rules, labels: seq<Label>, l: Label) {
    exists a, n: nat :: a in labels && NeedsIn(rules, n, a, l)
  }

  lemma ClosureStep(rules: Rules, labels: seq<Label>, a: Label, b: Label)
    requires InClosure(rules, labels, a) && DependsOn(rules, a, b)
    ensures InClosure(rules, labels, b)
  {
    var r, n: nat :| r in labels && NeedsIn(rules, n, r, a);
    assert NeedsIn(rules, n + 1, r, b);
  }

  lemma {:induction false} ClosureWithin(rules: Rules, n: nat, a: Label, b: Label, found: set<Label>)
    requires NeedsIn(rules, n, a, b) && a in found
    requires forall x, y :: x in found && DependsOn(rules, x, y) ==> y in found
    ensures b in found
    decreases n
  {
    if n > 0 {
      var c :| NeedsIn(rules, n - 1, a, c) && DependsOn(rules, c, b);
      ClosureWithin(rules, n - 1, a, c, found);
    }
  }

  // ---- What it should leave behind ----

  function WithLabel(d: Dependency, l: Label): Dependency {
    Dependency(l, d.when, d.parameters)
  }

  /** The reverse dependencies of `from` that name `to`, turned around. */
  ghost function Turned(reverse: seq<Dependency>, from: Label, to: Label): seq<Dependency> {
    if reverse == [] then []
    else
      var init, last := reverse[..|reverse| - 1], reverse[|reverse| - 1];
      Turned(init, from, to) + if last.rule == to then [WithLabel(last, from)] else []
  }

  /** What the rules visited in this order hand to `to`. */
  ghost function Handed(rules: Rules, order: seq<Label>, to: Label): seq<Dependency>
    requires forall l :: l in order ==> l in rules
  {
    if order == [] then []
    else
      var init, last := order[..|order| - 1], order[|order| - 1];
      Handed(rules, init, to) + Turned(rules[last].reverseDependencies, last, to)
  }

  function Extended(rule: Rule, more: seq<Dependency>): Rule {
    rule.(fromReverseDependencies := rule.fromReverseDependencies + more)
  }

  ghost function Resolved(rules: Rules, order: seq<Label>): Rules
    requires forall l :: l in order ==> l in rules
  {
    map l | l in rules :: Extended(rules[l], Handed(rules, order, l))
  }

  /** A walk that visits each rule of the forward closure once. */
  ghost predicate IsWalk(rules: Rules, labels: seq<Label>, order: seq<Label>) {
    && Distinct(order)
    && (forall l :: l in order ==> l in rules)
    && (forall l :: l in order <==> InClosure(rules, labels, l))
  }

  // The entries that come from one rule.
  ghost function EntriesOf(entries: seq<Dependency>, from: Label): seq<Dependency> {
    if entries == [] then []
    else EntriesOf(entries[..|entries| - 1], from)
         + if entries[|entries| - 1].rule == from then [entries[|entries| - 1]] else []
  }

  lemma {:induction false} EntriesOfAppend(a: seq<Dependency>, b: seq<Dependency>, from: Label)
    ensures EntriesOf(a + b, from) == EntriesOf(a, from) + EntriesOf(b, from)
  {
    if b == [] {
      assert a + b == a;
    } else {
      var init, last := b[..|b| - 1], b[|b| - 1];
      EntriesOfAppend(a, init, from);
      assert (a + b)[..|a + b| - 1] == a + init && (a + b)[|a + b| - 1] == last;
      var e := if last.rule == from then [last] else [];
      assert EntriesOf(a, from) + EntriesOf(init, from) + e == EntriesOf(a, from) + (EntriesOf(init, from) + e);
    }
  }

  lemma {:induction false} EntriesOfTurned(reverse: seq<Dependency>, from: Label, to: Label, r: Label)
    ensures EntriesOf(Turned(reverse, from, to), r) == if r == from then Turned(reverse, from, to) else []
  {
    if reverse != [] {
      var init, last := reverse[..|reverse| - 1], reverse[|reverse| - 1];
      var e := if last.rule == to then [WithLabel(last, from)] else [];
      EntriesOfTurned(init, from, to, r);
      EntriesOfAppend(Turned(init, from, to), e, r);
      assert e != [] ==> e[..0] == [] && EntriesOf(e[..0], r) == [];
    }
  }

  /** A rule receives, from each visited rule, exactly one turned-around entry for each
      reverse dependency declared on it, in order of declaration, and nothing else. */
  lemma {:induction false} HandedExactly(rules: Rules, order: seq<Label>, to: Label, r: Label)
    requires Distinct(order) && forall l :: l in order ==> l in rules
    ensures EntriesOf(Handed(rules, order, to), r) ==
            if r in order then Turned(rules[r].reverseDependencies, r, to) else []
  {
    if order != [] {
      var init, last := order[..|order| - 1], order[|order| - 1];
      DistinctInit(order);
      HandedExactly(rules, init, to, r);
      var turned := Turned(rules[last].reverseDependencies, last, to);
      EntriesOfTurned(rules[last].reverseDependencies, last, to, r);
      EntriesOfAppend(Handed(rules, init, to), turned, r);
      assert r in init ==> EntriesOf(Handed(rules, init, to), r) + [] == EntriesOf(Handed(rules, init, to), r);
      assert r == last ==> [] + turned == turned;
    }
  }

  lemma DistinctInit(order: seq<Label>)
    requires Distinct(order) && order != []
    ensures var init, last := order[..|order| - 1], order[|order| - 1];
            && Distinct(init) && last !in init
            && forall l :: l in order <==> l in init || l == last
  {
    assert order == order[..|order| - 1] + [order[|order| - 1]];
  }

  // ---- The walk ----

  function Labels(deps: seq<Dependency>): (r: seq<Label>)
    ensures |r| == |deps| && forall i :: 0 <= i < |r| ==> r[i] == deps[i].rule
  {
    seq(|deps|, i requires 0 <= i < |deps| => deps[i].rule)
  }

  lemma LabelsAre(rules: Rules, a: Label, b: Label)
    requires a in rules
    ensures b in Labels(rules[a].dependencies) <==> DependsOn(rules, a, b)
  {
    var deps := rules[a].dependencies;
    if b in Labels(deps) {
      var i :| 0 <= i < |deps| && Labels(deps)[i] == b;
      assert deps[i] in deps;
    }
    if DependsOn(rules, a, b) {
      var d :| d in deps && d.rule == b;
      var i :| 0 <= i < |deps| && deps[i] == d;
      assert Labels(deps)[i] == b;
    }
  }

  // Visited and queued so far: only rules of the closure, with the roots and the
  // dependencies of the visited ones among them.
  ghost predicate Walking(rules: Rules, labels: seq<Label>, order: seq<Label>, queue: seq<Label>) {
    && Distinct(order)
    && (forall l :: l in order || l in queue ==> l in rules && InClosure(rules, labels, l))
    && (forall l :: l in labels ==> l in order || l in queue)
    && (forall l, m :: l in order && DependsOn(rules, l, m) ==> m in order || m in queue)
  }

  lemma WalkStarts(rules: Rules, labels: seq<Label>)
    requires forall l :: l in labels ==> l in rules
    ensures Walking(rules, labels, [], labels)
  {
    forall l | l in labels ensures InClosure(rules, labels, l) {
      assert NeedsIn(rules, 0, l, l);
    }
  }

  lemma WalkSkips(rules: Rules, labels: seq<Label>, order: seq<Label>, queue: seq<Label>)
    requires Walking(rules, labels, order, queue) && |queue| > 0 && queue[0] in order
    ensures Walking(rules, labels, order, queue[1..])
  {
    assert forall l :: l in queue ==> l == queue[0] || l in queue[1..];
  }

  lemma WalkVisits(rules: Rules, labels: seq<Label>, order: seq<Label>, queue: seq<Label>)
    requires Closed(rules) && Walking(rules, labels, order, queue) && |queue| > 0 && queue[0] !in order
    ensures queue[0] in rules
    ensures var l := queue[0]; Walking(rules, labels, order + [l], queue[1..] + Labels(rules[l].dependencies))
  {
    var l, deps := queue[0], rules[queue[0]].dependencies;
    var order', queue' := order + [l], queue[1..] + Labels(deps);
    assert forall m :: m in queue ==> m == l || m in queue[1..];
    forall m | m in Labels(deps) ensures m in rules && InClosure(rules, labels, m) {
      LabelsAre(rules, l, m);
      ClosureStep(rules, labels, l, m);
      var d :| d in deps && d.rule == m;
      assert d in AllDependencies(rules[l]);
    }
    forall a, b | a in order' && DependsOn(rules, a, b) ensures b in order' || b in queue' {
      if a == l {
        LabelsAre(rules, l, b);
      }
    }
  }

  lemma WalkEnds(rules: Rules, labels: seq<Label>, order: seq<Label>)
    requires Walking(rules, labels, order, [])
    ensures IsWalk(rules, labels, order)
  {
    var found := set l | l in order;
    forall l | InClosure(rules, labels, l) ensures l in order {
      var a, n: nat :| a in labels && NeedsIn(rules, n, a, l);
      ClosureWithin(rules, n, a, l, found);
    }
  }

  // ---- The order of the walk ----

  /** `order` is the order in which a breadth-first walk from this queue visits the rules
      that are not in `visited`. */
  ghost predicate BreadthFirst(rules: Rules, queue: seq<Label>, visited: set<Label>, order: seq<Label>)
    decreases |order|, |queue|
  {
    if queue == [] then order == []
    else if queue[0] in visited then BreadthFirst(rules, queue[1..], visited, order)
    else
      && order != [] && order[0] == queue[0] && queue[0] in rules
      && BreadthFirst(rules, queue[1..] + Labels(rules[queue[0]].dependencies), visited + {queue[0]}, order[1..])
  }

  // Whatever a walk from here on visits, the whole walk visits after `order`.
  ghost predicate Continues(rules: Rules, labels: seq<Label>, order: seq<Label>, queue: seq<Label>,
                            visited: set<Label>) {
    forall rest :: BreadthFirst(rules, queue, visited, rest) ==> BreadthFirst(rules, labels, {}, order + rest)
  }

  lemma ContinuesFirst(rules: Rules, labels: seq<Label>)
    ensures Continues(rules, labels, [], labels, {})
  {
    forall rest | BreadthFirst(rules, labels, {}, rest) ensures BreadthFirst(rules, labels, {}, [] + rest) {
      assert [] + rest == rest;
    }
  }

  lemma ContinuesSkip(rules: Rules, labels: seq<Label>, order: seq<Label>, queue: seq<Label>, visited: set<Label>)
    requires Continues(rules, labels, order, queue, visited) && |queue| > 0 && queue[0] in visited
    ensures Continues(rules, labels, order, queue[1..], visited)
  {
    forall rest | BreadthFirst(rules, queue[1..], visited, rest)
      ensures BreadthFirst(rules, labels, {}, order + rest)
    {
      assert BreadthFirst(rules, queue, visited, rest);
    }
  }

  lemma ContinuesVisit(rules: Rules, labels: seq<Label>, order: seq<Label>, queue: seq<Label>, visited: set<Label>)
    requires Continues(rules, labels, order, queue, visited)
    requires |queue| > 0 && queue[0] !in visited && queue[0] in rules
    ensures var l := queue[0];
            Continues(rules, labels, order + [l], queue[1..] + Labels(rules[l].dependencies), visited + {l})
  {
    var l := queue[0];
    forall rest | BreadthFirst(rules, queue[1..] + Labels(rules[l].dependencies), visited + {l}, rest)
      ensures BreadthFirst(rules, labels, {}, order + [l] + rest)
    {
      assert ([l] + rest)[1..] == rest;
      assert BreadthFirst(rules, queue, visited, [l] + rest);
      assert order + [l] + rest == order + ([l] + rest);
    }
  }

  lemma ContinuesLast(rules: Rules, labels: seq<Label>, order: seq<Label>, visited: set<Label>)
    requires Continues(rules, labels, order, [], visited)
    ensures BreadthFirst(rules, labels, {}, order)
  {
    assert BreadthFirst(rules, [], visited, []) && order + [] == order;
  }

  // Handing over the reverse dependencies of one rule.
  ghost function HandedOver(rules: Rules, reverse: seq<Dependency>, from: Label): Rules {
    map l | l in rules :: Extended(rules[l], Turned(reverse, from, l))
  }

  lemma HandNext(rules: Rules, reverse: seq<Dependency>, from: Label, i: nat)
    requires i < |reverse| && reverse[i].rule in rules
    ensures var now, to := HandedOver(rules, reverse[..i], from), reverse[i].rule;
            HandedOver(rules, reverse[..i + 1], from) == now[to := Extended(now[to], [WithLabel(reverse[i], from)])]
  {
    assert reverse[..i + 1][..i] == reverse[..i];
    forall l ensures Turned(reverse[..i + 1], from, l) ==
        Turned(reverse[..i], from, l) + if reverse[i].rule == l then [WithLabel(reverse[i], from)] else [] {
    }
    forall l | l in rules && l != reverse[i].rule
      ensures Turned(reverse[..i + 1], from, l) == Turned(reverse[..i], from, l)
    {
    }
    var to := reverse[i].rule;
    ExtendedTwice(rules[to], Turned(reverse[..i], from, to), [WithLabel(reverse[i], from)]);
  }

  lemma ExtendedTwice(rule: Rule, a: seq<Dependency>, b: seq<Dependency>)
    ensures Extended(Extended(rule, a), b) == Extended(rule, a + b)
  {
    assert rule.fromReverseDependencies + a + b == rule.fromReverseDependencies + (a + b);
  }

  lemma ResolvedNext(rules: Rules, order: seq<Label>, l: Label)
    requires l in rules && forall m :: m in order ==> m in rules
    ensures Resolved(rules, order + [l]) == HandedOver(Resolved(rules, order), rules[l].reverseDependencies, l)
  {
    assert (order + [l])[..|order|] == order;
    forall m | m in rules ensures Resolved(rules, order + [l])[m]
                               == HandedOver(Resolved(rules, order), rules[l].reverseDependencies, l)[m] {
      ExtendedTwice(rules[m], Handed(rules, order, m), Turned(rules[l].reverseDependencies, l, m));
    }
  }

  lemma ResolvedNothing(rules: Rules)
    ensures Resolved(rules, []) == rules
  {
    forall l | l in rules ensures Extended(rules[l], []) == rules[l] {
      assert rules[l].fromReverseDependencies + [] == rules[l].fromReverseDependencies;
    }
  }

  class Loader {
    var rules: Rules

    constructor (rules: Rules)
      ensures this.rules == rules
    {
      this.rules := rules;
    }

    /** The inner loop: one entry for each reverse dependency of the rule. */
    method HandOver(l: Label)
      requires l in rules && forall d :: d in rules[l].reverseDependencies ==> d.rule in rules
      modifies this
      ensures rules == HandedOver(old(rules), old(rules)[l].reverseDependencies, l)
    {
      var reverse := rules[l].reverseDependencies;
      HandNothing(rules, l);
      for i := 0 to |reverse|
        invariant rules == HandedOver(old(rules), reverse[..i], l)
      {
        HandNext(old(rules), reverse, l, i);
        var to := reverse[i].rule;
        rules := rules[to := Extended(rules[to], [WithLabel(reverse[i], l)])];
      }
      assert reverse[..|reverse|] == reverse;
    }

    /** The turn of the walk for a rule that has not been visited. */
    method Visit(l: Label, ghost start: Rules, ghost order: seq<Label>) returns (next: seq<Label>)
      requires Closed(start) && l in start && (forall m :: m in order ==> m in start)
      requires rules == Resolved(start, order)
      modifies this
      ensures rules == Resolved(start, order + [l]) && next == Labels(start[l].dependencies)
    {
      ResolvedNext(start, order, l);
      HandOver(l);
      next := Labels(rules[l].dependencies);
    }

    /** When all labels are defined, the walk ends on any graph, visits each rule in the
        forward closure of `labels` once, and adds to the rules exactly what those hand
        over. */
    method ResolveReverseDependencies(labels: seq<Label>) returns (ghost order: seq<Label>)
      requires Closed(rules) && forall l :: l in labels ==> l in rules
      modifies this
      ensures IsWalk(old(rules), labels, order) && rules == Resolved(old(rules), order)
      ensures BreadthFirst(old(rules), labels, {}, order)
    {
      ghost var start := rules;
      var queue, visited := labels, {};
      order := [];
      WalkStarts(start, labels);
      ResolvedNothing(start);
      ContinuesFirst(start, labels);
      while |queue| > 0
        invariant Walking(start, labels, order, queue)
        invariant Continues(start, labels, order, queue, visited)
        invariant rules == Resolved(start, order)
        invariant Visited(order, visited)
        decreases |start.Keys - visited|, |queue|
      {
        var l := queue[0];
        if l in visited {
          WalkSkips(start, labels, order, queue);
          ContinuesSkip(start, labels, order, queue, visited);
          queue := queue[1..];
        } else {
          WalkVisits(start, labels, order, queue);
          ContinuesVisit(start, labels, order, queue, visited);
          VisitsMore(start, order, visited, l);
          var next := Visit(l, start, order);
          queue := queue[1..] + next;
          visited := visited + {l};
          order := order + [l];
        }
      }
      WalkEnds(start, labels, order);
      ContinuesLast(start, labels, order, visited);
    }
  }

  ghost predicate Visited(order: seq<Label>, visited: set<Label>) {
    forall l :: l in visited <==> l in order
  }

  lemma VisitsMore(rules: Rules, order: seq<Label>, visited: set<Label>, l: Label)
    requires Visited(order, visited) && l in rules && l !in visited
    ensures Visited(order + [l], visited + {l})
    ensures |rules.Keys - (visited + {l})| < |rules.Keys - visited|
  {
    SubsetCard(rules.Keys - (visited + {l}), rules.Keys - visited - {l});
  }

  lemma HandNothing(rules: Rules, from: Label)
    ensures HandedOver(rules, [], from) == rules
  {
    forall l | l in rules ensures Extended(rules[l], []) == rules[l] {
      assert rules[l].fromReverseDependencies + [] == rules[l].fromReverseDependencies;
    }
  }

  // ---- The build command ----

  ghost predicate HandsTo(rules: Rules, r: Label, to: Label, d: Dependency) {
    r in rules && d in Turned(rules[r].reverseDependencies, r, to)
  }

  lemma {:induction false} HandedMembers(rules: Rules, order: seq<Label>, to: Label, d: Dependency)
    requires forall l :: l in order ==> l in rules
    ensures d in Handed(rules, order, to) <==> exists r :: r in order && HandsTo(rules, r, to, d)
  {
    if order != [] {
      var init, last := order[..|order| - 1], order[|order| - 1];
      HandedMembers(rules, init, to, d);
      assert order == init + [last] && last in order;
      assert d in Handed(rules, order, to) <==> d in Handed(rules, init, to) || HandsTo(rules, last, to, d);
      forall r ensures r in order <==> r in init || r == last {
      }
    }
  }

  lemma {:induction false} TurnedLabel(reverse: seq<Dependency>, from: Label, to: Label, d: Dependency)
    requires d in Turned(reverse, from, to)
    ensures d.rule == from
  {
    if d !in Turned(reverse[..|reverse| - 1], from, to) {
    } else {
      TurnedLabel(reverse[..|reverse| - 1], from, to, d);
    }
  }

  /** Resolving keeps all labels defined. */
  lemma ResolvedClosed(rules: Rules, order: seq<Label>)
    requires Closed(rules) && forall l :: l in order ==> l in rules
    ensures Closed(Resolved(rules, order))
  {
    var after := Resolved(rules, order);
    forall l, d | l in after && (d in AllDependencies(after[l]) || d in after[l].reverseDependencies)
      ensures d.rule in after
    {
      if d in Handed(rules, order, l) {
        HandedMembers(rules, order, l, d);
        var r :| r in order && HandsTo(rules, r, l, d);
        TurnedLabel(rules[r].reverseDependencies, r, l, d);
      } else {
        assert d in AllDependencies(rules[l]) || d in rules[l].reverseDependencies;
      }
    }
  }

  ghost predicate SameLabels(a: seq<Label>, b: seq<Label>) {
    forall l :: l in a <==> l in b
  }

  /** The labels that are not in `before`, each at its first place. */
  function Firsts(args: seq<Label>, before: set<Label>): seq<Label> {
    if args == [] then []
    else if args[0] in before then Firsts(args[1..], before)
    else [args[0]] + Firsts(args[1..], before + {args[0]})
  }

  lemma {:induction false} FirstsSnoc(args: seq<Label>, before: set<Label>, l: Label)
    ensures Firsts(args + [l], before) ==
            Firsts(args, before) + if l in before || l in args then [] else [l]
  {
    if args == [] {
      assert args + [l] == [l] && [l][1..] == [];
    } else {
      assert (args + [l])[0] == args[0] && (args + [l])[1..] == args[1..] + [l];
      FirstsSnoc(args[1..], if args[0] in before then before else before + {args[0]}, l);
      assert args == [args[0]] + args[1..];
    }
  }

  /** The labels of the command line, each at its first place. */
  method Deduplicated(args: seq<Label>) returns (labels: seq<Label>)
    ensures Distinct(labels) && SameLabels(labels, args)
    ensures labels == Firsts(args, {})
  {
    labels := [];
    for i := 0 to |args|
      invariant Distinct(labels) && SameLabels(labels, args[..i])
      invariant labels == Firsts(args[..i], {})
    {
      assert args[..i + 1] == args[..i] + [args[i]];
      FirstsSnoc(args[..i], {}, args[i]);
      if args[i] !in labels {
        labels := labels + [args[i]];
      }
    }
    assert args[..|args|] == args;
  }

  // A walk does not notice labels that are named again.
  lemma {:induction false} SameBreadth(rules: Rules, args: seq<Label>, before: set<Label>, tail: seq<Label>,
                                       visited: set<Label>, order: seq<Label>)
    requires before <= visited && BreadthFirst(rules, Firsts(args, before) + tail, visited, order)
    ensures BreadthFirst(rules, args + tail, visited, order)
    decreases |order|, |args|
  {
    var queue := args + tail;
    if args == [] {
      assert args + tail == tail && Firsts(args, before) + tail == tail;
    } else {
      var l := args[0];
      assert queue[0] == l && queue[1..] == args[1..] + tail;
      if l in before {
        SameBreadth(rules, args[1..], before, tail, visited, order);
      } else {
        var rest := Firsts(args[1..], before + {l});
        var thin := Firsts(args, before) + tail;
        assert thin[0] == l && thin[1..] == rest + tail;
        if l in visited {
          SameBreadth(rules, args[1..], before + {l}, tail, visited, order);
        } else {
          var more := Labels(rules[l].dependencies);
          assert rest + tail + more == rest + (tail + more) && args[1..] + tail + more == args[1..] + (tail + more);
          SameBreadth(rules, args[1..], before + {l}, tail + more, visited + {l}, order[1..]);
        }
      }
    }
  }

  // Nor does depth-first execution.
  lemma {:induction false} SameDepth(g: Graph, args: seq<Label>, before: set<Label>, seen: set<Node>, log: seq<Node>)
    requires forall l :: l in before ==> Node(l, g.base) in seen
    requires DepthFirst(g, Roots(g.base, Firsts(args, before)), seen, log)
    ensures DepthFirst(g, Roots(g.base, args), seen, log)
    decreases |log|, |args|
  {
    if args == [] {
      assert Roots(g.base, args) == [] == Roots(g.base, Firsts(args, before));
    } else {
      var l, v := args[0], Node(args[0], g.base);
      var nodes := Roots(g.base, args);
      assert nodes[0] == v && nodes[1..] == Roots(g.base, args[1..]);
      if l in before {
        SameDepth(g, args[1..], before, seen, log);
      } else {
        var rest := Firsts(args[1..], before + {l});
        var thin := Roots(g.base, Firsts(args, before));
        assert thin[0] == v && thin[1..] == Roots(g.base, rest);
        if v in seen {
          SameDepth(g, args[1..], before + {l}, seen, log);
        } else {
          var k :| FirstDone(g, thin, seen, log, k);
          assert v in log[..k + 1];
          SameDepth(g, args[1..], before + {l}, seen + Elems(log[..k + 1]), log[k + 1..]);
          assert FirstDone(g, nodes, seen, log, k);
        }
      }
    }
  }

  /** The reverse dependencies of the closure are resolved breadth first, and everything
      the requested rules then reach is executed depth first. */
  ghost predicate IsCommand(rules: Rules, base: Env, args: seq<Label>, executed: seq<Node>) {
    exists order :: IsCommandIn(rules, base, args, executed, order)
  }

  ghost predicate IsCommandIn(rules: Rules, base: Env, args: seq<Label>, executed: seq<Node>, order: seq<Label>) {
    && IsWalk(rules, args, order) && BreadthFirst(rules, args, {}, order)
    && var g := Graph(Resolved(rules, order), base);
    IsBuild(g, args, executed) && IsDepthFirst(g, args, executed)
  }

  method CommandBuild(rules: Rules, base: Env, args: seq<Label>) returns (executed: seq<Node>)
    requires Closed(rules) && forall l :: l in args ==> l in rules
    ensures IsCommand(rules, base, args, executed)
  {
    var labels := Deduplicated(args);
    var loader := new Loader(rules);
    ghost var order := loader.ResolveReverseDependencies(labels);
    SameWalk(rules, labels, args, order);
    ResolvedClosed(rules, order);
    executed := Build(loader.rules, base, labels);
    SameCommand(rules, base, labels, args, executed, order);
  }

  lemma SameCommand(rules: Rules, base: Env, labels: seq<Label>, args: seq<Label>, log: seq<Node>, order: seq<Label>)
    requires labels == Firsts(args, {}) && SameLabels(labels, args)
    requires IsCommandIn(rules, base, labels, log, order)
    ensures IsCommandIn(rules, base, args, log, order)
  {
    var g := Graph(Resolved(rules, order), base);
    SameWalk(rules, labels, args, order);
    SameBuild(g, labels, args, log);
    assert labels + [] == labels && args + [] == args;
    SameBreadth(rules, args, {}, [], {}, order);
    SameDepth(g, args, {}, {}, log);
  }

  lemma SameWalk(rules: Rules, a: seq<Label>, b: seq<Label>, order: seq<Label>)
    requires SameLabels(a, b) && IsWalk(rules, a, order)
    ensures IsWalk(rules, b, order)
  {
    forall l ensures InClosure(rules, a, l) <==> InClosure(rules, b, l) {
    }
  }

  lemma SameBuild(g: Graph, a: seq<Label>, b: seq<Label>, log: seq<Node>)
    requires SameLabels(a, b) && IsBuild(g, a, log)
    ensures IsBuild(g, b, log)
  {
    forall v ensures Requested(g, a, v) <==> Requested(g, b, v) {
    }
  }

  // ---- The order of the command line ----

  ghost predicate SameEdges(g: Graph, h: Graph) {
    forall v, w :: Edge(g, v, w) <==> Edge(h, v, w)
  }

  lemma ResolvedEdge(rules: Rules, base: Env, a: seq<Label>, b: seq<Label>, v: Node, w: Node)
    requires SameLabels(a, b) && (forall l :: l in a ==> l in rules)
    requires Edge(Graph(Resolved(rules, a), base), v, w)
    ensures Edge(Graph(Resolved(rules, b), base), v, w)
  {
    var g, h := Graph(Resolved(rules, a), base), Graph(Resolved(rules, b), base);
    var d :| IsVia(g, v, w, d);
    HandedMembers(rules, a, v.rule, d);
    HandedMembers(rules, b, v.rule, d);
    assert d in AllDependencies(h.rules[v.rule]);
    assert IsVia(h, v, w, d);
  }

  lemma ResolvedEdges(rules: Rules, base: Env, labels: seq<Label>, a: seq<Label>, b: seq<Label>)
    requires IsWalk(rules, labels, a) && IsWalk(rules, labels, b)
    ensures SameEdges(Graph(Resolved(rules, a), base), Graph(Resolved(rules, b), base))
  {
    var g, h := Graph(Resolved(rules, a), base), Graph(Resolved(rules, b), base);
    forall v, w ensures Edge(g, v, w) <==> Edge(h, v, w) {
      if Edge(g, v, w) {
        ResolvedEdge(rules, base, a, b, v, w);
      }
      if Edge(h, v, w) {
        ResolvedEdge(rules, base, b, a, v, w);
      }
    }
  }

  lemma {:induction false} SameReach(g: Graph, h: Graph, n: nat, v: Node, w: Node)
    requires SameEdges(g, h) && ReachesIn(g, n, v, w)
    ensures ReachesIn(h, n, v, w)
    decreases n
  {
    if n > 0 {
      var u :| ReachesIn(g, n - 1, v, u) && Edge(g, u, w);
      SameReach(g, h, n - 1, v, u);
    }
  }

  lemma SameRequested(g: Graph, h: Graph, labels: seq<Label>, v: Node)
    requires SameEdges(g, h) && g.base == h.base && Requested(g, labels, v)
    ensures Requested(h, labels, v)
  {
    var l :| l in labels && Reaches(g, Node(l, g.base), v);
    var n: nat :| ReachesIn(g, n, Node(l, g.base), v);
    SameReach(g, h, n, Node(l, g.base), v);
    assert Reaches(h, Node(l, h.base), v);
  }

  lemma BuiltIn(rules: Rules, base: Env, args: seq<Label>, log: seq<Node>) returns (order: seq<Label>)
    requires IsCommand(rules, base, args, log)
    ensures IsWalk(rules, args, order) && IsBuild(Graph(Resolved(rules, order), base), args, log)
  {
    order :| IsCommandIn(rules, base, args, log, order);
  }

  /** Whatever the order of the rules on the command line, and so whatever the order in
      which reverse dependencies are handed over, the same builds are executed. */
  lemma CommandLineOrderIsIrrelevant(rules: Rules, base: Env, argsA: seq<Label>, argsB: seq<Label>,
                                     a: seq<Node>, b: seq<Node>)
    requires SameLabels(argsA, argsB) && IsCommand(rules, base, argsA, a) && IsCommand(rules, base, argsB, b)
    ensures multiset(a) == multiset(b)
  {
    var orderA := BuiltIn(rules, base, argsA, a);
    var orderB := BuiltIn(rules, base, argsB, b);
    var g, h := Graph(Resolved(rules, orderA), base), Graph(Resolved(rules, orderB), base);
    SameWalk(rules, argsB, argsA, orderB);
    ResolvedEdges(rules, base, argsA, orderA, orderB);
    SameBuild(h, argsB, argsA, b);
    forall v ensures multiset(a)[v] == multiset(b)[v] {
      DistinctCounts(a, v);
      DistinctCounts(b, v);
      if Requested(g, argsA, v) {
        SameRequested(g, h, argsA, v);
      }
      if Requested(h, argsA, v) {
        SameRequested(h, g, argsA, v);
      }
    }
  }
}
