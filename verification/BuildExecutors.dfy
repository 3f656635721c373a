/** The executor of build rules and its record of builds (python/foreman/foreman.py). */
module BuildExecutors {
  import opened Common
  import opened BuildGraphs

  // ---- Build identifiers ----

  predicate IsLeast(keys: set<Label>, m: Label) {
    m in keys && forall k :: k in keys ==> m <= k
  }

  lemma {:induction false} HasLeast(keys: set<Label>)
    requires keys != {}
    ensures exists m :: IsLeast(keys, m)
  {
    var m :| m in keys;
    if keys == {m} {
      assert IsLeast(keys, m);
    } else {
      HasLeast(keys - {m});
      var n :| IsLeast(keys - {m}, n);
      assert forall k :: k in keys ==> k == m || k in keys - {m};
      assert IsLeast(keys, if m < n then m else n);
    }
  }

  /** The labels in order. */
  function SortedKeys(keys: set<Label>): (labels: seq<Label>)
    ensures forall k :: k in keys <==> k in labels
  {
    if keys == {} then []
    else
      HasLeast(keys);
      var m :| m in keys && IsLeast(keys, m);
      [m] + SortedKeys(keys - {m})
  }

  function ValuesAt(env: Env, labels: seq<Label>): seq<Value>
    requires forall l :: l in labels ==> l in env
  {
    seq(|labels|, i requires 0 <= i < |labels| => env[labels[i]])
  }

  function ValuesOf(env: Env): seq<Value> {
    ValuesAt(env, SortedKeys(env.Keys))
  }

  /** The labels of an environment and the values in label order determine it. */
  lemma IdDetermines(a: Env, b: Env)
    requires SortedKeys(a.Keys) == SortedKeys(b.Keys) && ValuesOf(a) == ValuesOf(b)
    ensures a == b
  {
    var labels := SortedKeys(a.Keys);
    forall k | k in a ensures k in b && a[k] == b[k] {
      var i :| 0 <= i < |labels| && labels[i] == k;
      assert ValuesOf(a)[i] == a[k] && ValuesOf(b)[i] == b[k];
    }
    assert a.Keys == b.Keys;
  }

  type ValuesLists = map<(Label, seq<Label>), seq<seq<Value>>>

  function ListFor(lists: ValuesLists, v: Node): seq<seq<Value>> {
    var key := (v.rule, SortedKeys(v.env.Keys));
    if key in lists then lists[key] else []
  }

  predicate Recorded(lists: ValuesLists, v: Node) {
    ValuesOf(v.env) in ListFor(lists, v)
  }

  function Record(lists: ValuesLists, v: Node): ValuesLists {
    lists[(v.rule, SortedKeys(v.env.Keys)) := ListFor(lists, v) + [ValuesOf(v.env)]]
  }

  /** Recording a build records it and no other. */
  lemma RecordAdds(lists: ValuesLists, v: Node, w: Node)
    ensures Recorded(Record(lists, v), w) <==> Recorded(lists, w) || w == v
  {
    if w.rule == v.rule && SortedKeys(w.env.Keys) == SortedKeys(v.env.Keys) {
      if ValuesOf(w.env) == ValuesOf(v.env) {
        IdDetermines(w.env, v.env);
      }
    }
  }

  class BuildIds {
    var valuesLists: ValuesLists
    ghost var seen: set<Node>

    ghost predicate Valid()
      reads this
    {
      forall v :: Recorded(valuesLists, v) <==> v in seen
    }

    constructor ()
      ensures Valid() && seen == {}
    {
      valuesLists := map[];
      seen := {};
    }

    /** Whether the rule has been asked for in this environment before; from now on it
        has. */
    method CheckAndAdd(rule: Label, env: Env) returns (known: bool)
      requires Valid()
      modifies this
      ensures Valid()
      ensures known <==> Node(rule, env) in old(seen)
      ensures seen == old(seen) + {Node(rule, env)}
    {
      ghost var v := Node(rule, env);
      var labels := SortedKeys(env.Keys);
      var valuesList := if (rule, labels) in valuesLists then valuesLists[(rule, labels)] else [];
      var values := ValuesOf(env);
      known := values in valuesList;
      assert known == Recorded(valuesLists, v);
      if !known {
        forall w ensures Recorded(Record(valuesLists, v), w) <==> Recorded(valuesLists, w) || w == v {
          RecordAdds(valuesLists, v, w);
        }
        valuesLists := valuesLists[(rule, labels) := valuesList + [values]];
        seen := seen + {v};
      }
    }
  }

  // ---- Runs of the executor ----

  /** A dependency of an executed node has been executed before it, or leads back to it. */
  ghost predicate InOrder(g: Graph, log: seq<Node>) {
    forall j, w :: 0 <= j < |log| && Edge(g, log[j], w) ==> w in log[..j] || Reaches(g, w, log[j])
  }

  /** The nodes seen are those executed and those still open; those executed have had
      all their dependencies asked for. */
  ghost predicate Sound(g: Graph, seen: set<Node>, log: seq<Node>, open: set<Node>) {
    && Distinct(log) && InOrder(g, log)
    && (forall v :: v in seen <==> v in log || v in open)
    && (forall v :: v in open ==> v !in log)
    && (forall v, w :: v in log && Edge(g, v, w) ==> w in seen)
  }

  // All open nodes lead to this one.
  ghost predicate LeadTo(g: Graph, open: set<Node>, v: Node) {
    forall o :: o in open ==> Reaches(g, o, v)
  }

  ghost predicate AllReached(g: Graph, v: Node, added: set<Node>) {
    forall w :: w in added ==> Reaches(g, v, w)
  }

  lemma Opens(g: Graph, seen: set<Node>, log: seq<Node>, open: set<Node>, v: Node)
    requires Sound(g, seen, log, open) && LeadTo(g, open, v) && v !in seen
    ensures Sound(g, seen + {v}, log, open + {v}) && LeadTo(g, open + {v}, v)
  {
    ReachesSelf(g, v);
  }

  lemma LeadOn(g: Graph, open: set<Node>, v: Node, w: Node)
    requires LeadTo(g, open, v) && Edge(g, v, w)
    ensures LeadTo(g, open, w)
  {
    forall o | o in open ensures Reaches(g, o, w) {
      ReachesStep(g, o, v, w);
    }
  }

  lemma ReachedOn(g: Graph, v: Node, w: Node, added: set<Node>)
    requires Edge(g, v, w) && AllReached(g, w, added)
    ensures AllReached(g, v, added)
  {
    ReachesSelf(g, v);
    ReachesStep(g, v, v, w);
    forall x | x in added ensures Reaches(g, v, x) {
      ReachesTrans(g, v, w, x);
    }
  }

  /** A node whose dependencies have all been asked for may be executed. */
  lemma Closes(g: Graph, seen: set<Node>, log: seq<Node>, open: set<Node>, v: Node)
    requires Sound(g, seen, log, open + {v}) && v !in open && LeadTo(g, open + {v}, v)
    requires forall w :: Edge(g, v, w) ==> w in seen
    ensures Sound(g, seen, log + [v], open)
  {
    var all := log + [v];
    forall j, w | 0 <= j < |all| && Edge(g, all[j], w) ensures w in all[..j] || Reaches(g, w, all[j]) {
      if j < |log| {
        assert all[..j] == log[..j] && all[j] == log[j];
      } else {
        assert all[..j] == log;
      }
    }
    assert forall x :: x in all <==> x in log || x == v;
  }

  // ---- Depth first ----

  /** What a node asks for, in order. */
  function AskedOf(base: Env, v: Node, deps: seq<Dependency>): seq<Node> {
    if deps == [] then []
    else
      var init, last := deps[..|deps| - 1], deps[|deps| - 1];
      AskedOf(base, v, init) + if Applies(last, v) then [Node(last.rule, NextEnv(base, v.env, last))] else []
  }

  function Asks(g: Graph, v: Node): seq<Node> {
    if v.rule in g.rules then AskedOf(g.base, v, AllDependencies(g.rules[v.rule])) else []
  }

  /** `log` is what depth-first execution of these nodes, one after the other, executes
      when those in `seen` have been asked for: for each new one, what it asks for, then
      the node itself. */
  ghost predicate DepthFirst(g: Graph, nodes: seq<Node>, seen: set<Node>, log: seq<Node>)
    decreases |log|, |nodes|
  {
    if nodes == [] then log == []
    else if nodes[0] in seen then DepthFirst(g, nodes[1..], seen, log)
    else exists k :: FirstDone(g, nodes, seen, log, k)
  }

  // The first node is done at place `k`.
  ghost predicate FirstDone(g: Graph, nodes: seq<Node>, seen: set<Node>, log: seq<Node>, k: int)
    requires nodes != []
    decreases |log|, 0
  {
    && 0 <= k < |log| && log[k] == nodes[0]
    && DepthFirst(g, Asks(g, nodes[0]), seen + {nodes[0]}, log[..k])
    && DepthFirst(g, nodes[1..], seen + Elems(log[..k + 1]), log[k + 1..])
  }

  lemma NothingNew(g: Graph, v: Node, seen: set<Node>)
    requires v in seen
    ensures DepthFirst(g, [v], seen, [])
  {
    assert [v][1..] == [];
  }

  lemma OneNode(g: Graph, v: Node, seen: set<Node>, log: seq<Node>)
    requires v !in seen && DepthFirst(g, Asks(g, v), seen + {v}, log)
    ensures DepthFirst(g, [v], seen, log + [v])
  {
    var all := log + [v];
    assert all[..|log|] == log && all[|log| + 1..] == [] && [v][1..] == [];
    assert FirstDone(g, [v], seen, all, |log|);
  }

  /** Executing one more node. */
  lemma {:induction false} NodesSnoc(g: Graph, nodes: seq<Node>, seen: set<Node>, log: seq<Node>, v: Node,
                                     more: seq<Node>)
    requires DepthFirst(g, nodes, seen, log) && DepthFirst(g, [v], seen + Elems(log), more)
    ensures DepthFirst(g, nodes + [v], seen, log + more)
    decreases |log|, |nodes|
  {
    var all := nodes + [v];
    if nodes == [] {
      assert all == [v] && log + more == more && seen + Elems(log) == seen;
    } else {
      assert all[0] == nodes[0] && all[1..] == nodes[1..] + [v];
      if nodes[0] in seen {
        NodesSnoc(g, nodes[1..], seen, log, v, more);
      } else {
        var k :| FirstDone(g, nodes, seen, log, k);
        SplitSeen(seen, log, k + 1);
        NodesSnoc(g, nodes[1..], seen + Elems(log[..k + 1]), log[k + 1..], v, more);
        assert (log + more)[..k] == log[..k] && (log + more)[..k + 1] == log[..k + 1];
        assert (log + more)[k + 1..] == log[k + 1..] + more;
        assert FirstDone(g, all, seen, log + more, k);
      }
    }
  }

  lemma SplitSeen(seen: set<Node>, log: seq<Node>, k: nat)
    requires k <= |log|
    ensures seen + Elems(log[..k]) + Elems(log[k..]) == seen + Elems(log)
  {
    ElemsConcat(log[..k], log[k..]);
    assert log == log[..k] + log[k..];
  }

  lemma AskedSnoc(base: Env, v: Node, deps: seq<Dependency>, i: nat)
    requires i < |deps|
    ensures AskedOf(base, v, deps[..i + 1]) ==
            AskedOf(base, v, deps[..i])
            + if Applies(deps[i], v) then [Node(deps[i].rule, NextEnv(base, v.env, deps[i]))] else []
  {
    assert deps[..i + 1][..i] == deps[..i];
  }

  /** What executing these nodes adds to the log and to what has been asked for. */
  ghost predicate Adds(g: Graph, nodes: seq<Node>, seen: set<Node>, seen': set<Node>, log: seq<Node>, log': seq<Node>) {
    exists more :: AddsThese(g, nodes, seen, seen', log, log', more)
  }

  ghost predicate AddsThese(g: Graph, nodes: seq<Node>, seen: set<Node>, seen': set<Node>, log: seq<Node>,
                            log': seq<Node>, more: seq<Node>) {
    log' == log + more && seen' == seen + Elems(more) && DepthFirst(g, nodes, seen, more)
  }

  lemma AddsNothing(g: Graph, seen: set<Node>, log: seq<Node>)
    ensures Adds(g, [], seen, seen, log, log)
  {
    assert log + [] == log && seen + Elems([]) == seen;
    assert AddsThese(g, [], seen, seen, log, log, []);
  }

  lemma AddsKnown(g: Graph, v: Node, seen: set<Node>, log: seq<Node>)
    requires v in seen
    ensures Adds(g, [v], seen, seen, log, log)
  {
    NothingNew(g, v, seen);
    assert log + [] == log && seen + Elems([]) == seen;
    assert AddsThese(g, [v], seen, seen, log, log, []);
  }

  lemma AddsOne(g: Graph, v: Node, seen: set<Node>, seen': set<Node>, log: seq<Node>, log': seq<Node>)
    requires v !in seen && Adds(g, Asks(g, v), seen + {v}, seen', log, log')
    ensures Adds(g, [v], seen, seen', log, log' + [v])
  {
    var more :| AddsThese(g, Asks(g, v), seen + {v}, seen', log, log', more);
    OneNode(g, v, seen, more);
    ElemsConcat(more, [v]);
    assert log + more + [v] == log + (more + [v]) && Elems([v]) == {v};
    assert AddsThese(g, [v], seen, seen', log, log' + [v], more + [v]);
  }

  lemma AddsNext(g: Graph, nodes: seq<Node>, v: Node, seen: set<Node>, mid: set<Node>, seen': set<Node>,
                 log: seq<Node>, midLog: seq<Node>, log': seq<Node>)
    requires Adds(g, nodes, seen, mid, log, midLog) && Adds(g, [v], mid, seen', midLog, log')
    ensures Adds(g, nodes + [v], seen, seen', log, log')
  {
    var a :| AddsThese(g, nodes, seen, mid, log, midLog, a);
    var b :| AddsThese(g, [v], mid, seen', midLog, log', b);
    NodesSnoc(g, nodes, seen, a, v, b);
    ElemsConcat(a, b);
    assert log + a + b == log + (a + b);
    assert AddsThese(g, nodes + [v], seen, seen', log, log', a + b);
  }

  class Executor {
    const rules: Rules
    ghost const base: Env
    const buildIds: BuildIds
    var executed: seq<Node>

    ghost function G(): Graph {
      Graph(rules, base)
    }

    ghost predicate Valid(open: set<Node>)
      reads this, buildIds
    {
      && Closed(rules) && buildIds.Valid() && buildIds.seen <= Universe(G())
      && Sound(G(), buildIds.seen, executed, open)
    }

    constructor (rules: Rules, ghost base: Env)
      requires Closed(rules)
      ensures this.rules == rules && this.base == base
      ensures Valid({}) && executed == [] && fresh(buildIds) && buildIds.seen == {}
    {
      this.rules := rules;
      this.base := base;
      buildIds := new BuildIds();
      executed := [];
    }

    /** One of the rules asked for on the command line, after those in `before`. */
    method Execute(rule: Label, env: Env, ghost before: seq<Label>)
      requires Valid({}) && rule in rules && env == base && PartlyBuilt(G(), before, buildIds.seen)
      requires AddsRoots(G(), before, buildIds.seen, executed)
      modifies this, buildIds
      ensures Valid({}) && PartlyBuilt(G(), before + [rule], buildIds.seen)
      ensures AddsRoots(G(), before + [rule], buildIds.seen, executed)
    {
      var chain: Chain := [env];
      assert chain[1..] == [] && Flat(chain) == env;
      GivenFits(G(), base);
      ExecuteRule(rule, chain, {});
      BuiltOn(G(), before, rule, old(buildIds.seen), buildIds.seen);
      AddsRoot(G(), before, rule, old(buildIds.seen), buildIds.seen, old(executed), executed);
    }

    /** Depth first: the dependencies that apply, then the rule itself, unless this
        very build has been asked for before. */
    method ExecuteRule(rule: Label, env: Chain, ghost open: set<Node>)
      requires Valid(open) && rule in rules && Base(env) == base && Fits(G(), Flat(env))
      requires LeadTo(G(), open, Node(rule, Flat(env)))
      modifies this, buildIds
      ensures Valid(open)
      ensures Node(rule, Flat(env)) in buildIds.seen && old(buildIds.seen) <= buildIds.seen
      ensures AllReached(G(), Node(rule, Flat(env)), buildIds.seen - old(buildIds.seen))
      ensures Adds(G(), [Node(rule, Flat(env))], old(buildIds.seen), buildIds.seen, old(executed), executed)
      decreases |Universe(G()) - buildIds.seen|, 0
    {
      var v := Node(rule, Flat(env));
      InUniverse(G(), v);
      var known := buildIds.CheckAndAdd(rule, Flat(env));
      if known {
        assert buildIds.seen == old(buildIds.seen);
        AddsKnown(G(), v, buildIds.seen, executed);
        return;
      }
      Opens(G(), old(buildIds.seen), executed, open, v);
      StrictSubsetCard(Universe(G()) - buildIds.seen, Universe(G()) - old(buildIds.seen), v);
      ExecuteDependencies(rule, env, open);
      AskedForAll(G(), v, buildIds.seen);
      Closes(G(), buildIds.seen, executed, open, v);
      AddsRule(G(), v, old(buildIds.seen), buildIds.seen, old(executed), executed);
      executed := executed + [v];
      ReachesSelf(G(), v);
    }

    method ExecuteDependencies(rule: Label, env: Chain, ghost open: set<Node>)
      requires rule in rules && Base(env) == base && Fits(G(), Flat(env))
      requires var v := Node(rule, Flat(env)); Valid(open + {v}) && LeadTo(G(), open + {v}, v)
      modifies this, buildIds
      ensures Valid(open + {Node(rule, Flat(env))})
      ensures Advanced(G(), Node(rule, Flat(env)), |AllDependencies(rules[rule])|, old(buildIds.seen), buildIds.seen)
      ensures AddsFirst(G(), Node(rule, Flat(env)), |AllDependencies(rules[rule])|, old(buildIds.seen), buildIds.seen,
                        old(executed), executed)
      decreases |Universe(G()) - buildIds.seen|, 2
    {
      ghost var v := Node(rule, Flat(env));
      var deps := AllDependencies(rules[rule]);
      AddsNoneFirst(G(), v, buildIds.seen, executed);
      for i := 0 to |deps|
        invariant Valid(open + {v})
        invariant Advanced(G(), v, i, old(buildIds.seen), buildIds.seen)
        invariant AddsFirst(G(), v, i, old(buildIds.seen), buildIds.seen, old(executed), executed)
      {
        ExecuteDependency(rule, env, i, open, old(buildIds.seen), old(executed));
      }
    }

    /** The turn of the loop for the dependency at `i`. */
    method ExecuteDependency(rule: Label, env: Chain, i: nat, ghost open: set<Node>, ghost start: set<Node>,
                             ghost startLog: seq<Node>)
      requires rule in rules && Base(env) == base && Fits(G(), Flat(env))
      requires var v := Node(rule, Flat(env));
               && Valid(open + {v}) && LeadTo(G(), open + {v}, v) && i < |AllDependencies(rules[rule])|
               && Advanced(G(), v, i, start, buildIds.seen)
               && AddsFirst(G(), v, i, start, buildIds.seen, startLog, executed)
      modifies this, buildIds
      ensures Valid(open + {Node(rule, Flat(env))})
      ensures Advanced(G(), Node(rule, Flat(env)), i + 1, start, buildIds.seen)
      ensures AddsFirst(G(), Node(rule, Flat(env)), i + 1, start, buildIds.seen, startLog, executed)
      decreases |Universe(G()) - start|, 1
    {
      var d := AllDependencies(rules[rule])[i];
      ghost var v, w := Node(rule, Flat(env)), Node(d.rule, NextEnv(base, Flat(env), d));
      if Applies(d, Node(rule, Flat(env))) {
        NextChainIs(env, d);
        assert IsVia(G(), v, w, d);
        NextFits(G(), v, w, d);
        LeadOn(G(), open + {v}, v, w);
        SubsetCard(Universe(G()) - buildIds.seen, Universe(G()) - start);
        ExecuteRule(d.rule, NextChain(env, d), open + {v});
        ReachedOn(G(), v, w, buildIds.seen - old(buildIds.seen));
      }
      AddsDependency(G(), v, i, start, old(buildIds.seen), buildIds.seen, startLog, old(executed), executed);
      Advances(G(), v, i, start, old(buildIds.seen), buildIds.seen);
    }
  }

  // From `start` on, the first `i` dependencies of `v` have been asked for, and only
  // what `v` reaches has been added.
  ghost predicate Advanced(g: Graph, v: Node, i: nat, start: set<Node>, seen: set<Node>) {
    && v.rule in g.rules && i <= |AllDependencies(g.rules[v.rule])|
    && AsksFor(g, v, AllDependencies(g.rules[v.rule])[..i], seen)
    && start <= seen && AllReached(g, v, seen - start)
  }

  // The first `i` dependencies of `v` have been executed depth first.
  ghost predicate AddsFirst(g: Graph, v: Node, i: nat, start: set<Node>, seen: set<Node>, startLog: seq<Node>,
                            log: seq<Node>) {
    && v.rule in g.rules && i <= |AllDependencies(g.rules[v.rule])|
    && Adds(g, AskedOf(g.base, v, AllDependencies(g.rules[v.rule])[..i]), start, seen, startLog, log)
  }

  lemma AddsNoneFirst(g: Graph, v: Node, seen: set<Node>, log: seq<Node>)
    requires v.rule in g.rules
    ensures Advanced(g, v, 0, seen, seen) && AddsFirst(g, v, 0, seen, seen, log, log)
  {
    AddsNothing(g, seen, log);
    assert AllDependencies(g.rules[v.rule])[..0] == [];
  }

  // All dependencies, then the node itself.
  lemma AddsRule(g: Graph, v: Node, seen: set<Node>, seen': set<Node>, log: seq<Node>, log': seq<Node>)
    requires v.rule in g.rules && v !in seen
    requires AddsFirst(g, v, |AllDependencies(g.rules[v.rule])|, seen + {v}, seen', log, log')
    ensures Adds(g, [v], seen, seen', log, log' + [v])
  {
    var deps := AllDependencies(g.rules[v.rule]);
    assert deps[..|deps|] == deps;
    AddsOne(g, v, seen, seen', log, log');
  }

  lemma AddsDependency(g: Graph, v: Node, i: nat, start: set<Node>, mid: set<Node>, seen: set<Node>,
                       startLog: seq<Node>, midLog: seq<Node>, log: seq<Node>)
    requires AddsFirst(g, v, i, start, mid, startLog, midLog) && i < |AllDependencies(g.rules[v.rule])|
    requires var d := AllDependencies(g.rules[v.rule])[i];
             if Applies(d, v) then Adds(g, [Node(d.rule, NextEnv(g.base, v.env, d))], mid, seen, midLog, log)
             else seen == mid && log == midLog
    ensures AddsFirst(g, v, i + 1, start, seen, startLog, log)
  {
    var deps := AllDependencies(g.rules[v.rule]);
    var asked := AskedOf(g.base, v, deps[..i]);
    AskedSnoc(g.base, v, deps, i);
    if Applies(deps[i], v) {
      AddsNext(g, asked, Node(deps[i].rule, NextEnv(g.base, v.env, deps[i])), start, mid, seen, startLog, midLog, log);
    } else {
      assert asked + [] == asked;
    }
  }

  // The dependencies in `deps` that apply have been asked for.
  ghost predicate AsksFor(g: Graph, v: Node, deps: seq<Dependency>, seen: set<Node>) {
    forall d :: d in deps && Applies(d, v) ==> Node(d.rule, NextEnv(g.base, v.env, d)) in seen
  }

  lemma Advances(g: Graph, v: Node, i: nat, start: set<Node>, before: set<Node>, after: set<Node>)
    requires Advanced(g, v, i, start, before) && i < |AllDependencies(g.rules[v.rule])| && before <= after
    requires var d := AllDependencies(g.rules[v.rule])[i];
             Applies(d, v) ==> Node(d.rule, NextEnv(g.base, v.env, d)) in after
    requires AllReached(g, v, after - before)
    ensures Advanced(g, v, i + 1, start, after)
  {
    var deps := AllDependencies(g.rules[v.rule]);
    assert deps[..i + 1] == deps[..i] + [deps[i]];
  }

  lemma AskedForAll(g: Graph, v: Node, seen: set<Node>)
    requires v.rule in g.rules
    requires AsksFor(g, v, AllDependencies(g.rules[v.rule])[..|AllDependencies(g.rules[v.rule])|], seen)
    ensures forall w :: Edge(g, v, w) ==> w in seen
  {
    var deps := AllDependencies(g.rules[v.rule]);
    assert deps[..|deps|] == deps;
    forall w | Edge(g, v, w) ensures w in seen {
      var d :| IsVia(g, v, w, d);
    }
  }

  lemma StrictSubsetCard(a: set<Node>, b: set<Node>, v: Node)
    requires a <= b && v in b && v !in a
    ensures |a| < |b|
  {
    SubsetCard(a, b - {v});
  }

  // ---- Whole builds ----

  ghost predicate Requested(g: Graph, labels: seq<Label>, v: Node) {
    exists l :: l in labels && Reaches(g, Node(l, g.base), v)
  }

  /** A complete build: what the requested rules reach, each once, in order. */
  ghost predicate IsBuild(g: Graph, labels: seq<Label>, log: seq<Node>) {
    && Distinct(log) && InOrder(g, log)
    && forall v :: v in log <==> Requested(g, labels, v)
  }

  // Some of the requested rules have been executed, and nothing else.
  ghost predicate PartlyBuilt(g: Graph, labels: seq<Label>, seen: set<Node>) {
    && (forall l :: l in labels ==> Node(l, g.base) in seen)
    && (forall v :: v in seen ==> Requested(g, labels, v))
  }

  lemma BuiltOn(g: Graph, labels: seq<Label>, l: Label, before: set<Node>, after: set<Node>)
    requires PartlyBuilt(g, labels, before) && before <= after && Node(l, g.base) in after
    requires AllReached(g, Node(l, g.base), after - before)
    ensures PartlyBuilt(g, labels + [l], after)
  {
    forall v | v in after ensures Requested(g, labels + [l], v) {
      if v in before {
        var k :| k in labels && Reaches(g, Node(k, g.base), v);
        assert k in labels + [l];
      } else {
        assert l in labels + [l] && Reaches(g, Node(l, g.base), v);
      }
    }
  }

  lemma BuiltAll(g: Graph, labels: seq<Label>, seen: set<Node>, log: seq<Node>)
    requires Sound(g, seen, log, {}) && PartlyBuilt(g, labels, seen)
    ensures IsBuild(g, labels, log)
  {
    forall v | Requested(g, labels, v) ensures v in log {
      var l :| l in labels && Reaches(g, Node(l, g.base), v);
      ClosedUnderReach(g, seen, Node(l, g.base), v);
    }
  }

  function Roots(base: Env, labels: seq<Label>): seq<Node> {
    seq(|labels|, i requires 0 <= i < |labels| => Node(labels[i], base))
  }

  /** The rules of the command line, depth first in their order. */
  ghost predicate IsDepthFirst(g: Graph, labels: seq<Label>, log: seq<Node>) {
    DepthFirst(g, Roots(g.base, labels), {}, log)
  }

  ghost predicate AddsRoots(g: Graph, labels: seq<Label>, seen: set<Node>, log: seq<Node>) {
    Adds(g, Roots(g.base, labels), {}, seen, [], log)
  }

  lemma AddsRoot(g: Graph, labels: seq<Label>, l: Label, mid: set<Node>, seen: set<Node>, midLog: seq<Node>,
                 log: seq<Node>)
    requires AddsRoots(g, labels, mid, midLog) && Adds(g, [Node(l, g.base)], mid, seen, midLog, log)
    ensures AddsRoots(g, labels + [l], seen, log)
  {
    assert Roots(g.base, labels + [l]) == Roots(g.base, labels) + [Node(l, g.base)];
    AddsNext(g, Roots(g.base, labels), Node(l, g.base), {}, mid, seen, [], midLog, log);
  }

  lemma AddsNoRoots(g: Graph)
    ensures AddsRoots(g, [], {}, [])
  {
    AddsNothing(g, {}, []);
    assert Roots(g.base, []) == [];
  }

  lemma AddedRoots(g: Graph, labels: seq<Label>, seen: set<Node>, log: seq<Node>)
    requires AddsRoots(g, labels, seen, log)
    ensures IsDepthFirst(g, labels, log)
  {
    var more :| AddsThese(g, Roots(g.base, labels), {}, seen, [], log, more);
    assert log == more;
  }

  /** The loop over the rules of the command line.  For any rules, cyclic or not, it
      ends, and what it executes is a complete build. */
  method Build(rules: Rules, base: Env, labels: seq<Label>) returns (executed: seq<Node>)
    requires Closed(rules) && forall l :: l in labels ==> l in rules
    ensures IsBuild(Graph(rules, base), labels, executed)
    ensures IsDepthFirst(Graph(rules, base), labels, executed)
  {
    var executor := new Executor(rules, base);
    AddsNoRoots(executor.G());
    assert labels[..0] == [];
    for i := 0 to |labels|
      invariant executor.Valid({}) && PartlyBuilt(executor.G(), labels[..i], executor.buildIds.seen)
      invariant AddsRoots(executor.G(), labels[..i], executor.buildIds.seen, executor.executed)
      invariant fresh(executor) && fresh(executor.buildIds)
    {
      assert labels[..i + 1] == labels[..i] + [labels[i]];
      executor.Execute(labels[i], base, labels[..i]);
    }
    assert labels[..|labels|] == labels;
    BuiltAll(executor.G(), labels, executor.buildIds.seen, executor.executed);
    executed := executor.executed;
    AddedRoots(executor.G(), labels, executor.buildIds.seen, executed);
  }

  lemma {:induction false} DistinctCounts(a: seq<Node>, v: Node)
    requires Distinct(a)
    ensures multiset(a)[v] == if v in a then 1 else 0
  {
    if a != [] {
      DistinctCounts(a[1..], v);
      assert a == [a[0]] + a[1..];
    }
  }

  /** The order of the rules on the command line, and naming one twice, changes at most
      the order of execution. */
  lemma AnyOrderBuildsTheSame(g: Graph, labelsA: seq<Label>, labelsB: seq<Label>, a: seq<Node>, b: seq<Node>)
    requires IsBuild(g, labelsA, a) && IsBuild(g, labelsB, b)
    requires forall l :: l in labelsA <==> l in labelsB
    ensures multiset(a) == multiset(b)
  {
    forall v ensures multiset(a)[v] == multiset(b)[v] {
      DistinctCounts(a, v);
      DistinctCounts(b, v);
      assert Requested(g, labelsA, v) <==> Requested(g, labelsB, v);
    }
  }

  ghost predicate DependenciesFirst(g: Graph, log: seq<Node>) {
    forall j, w :: 0 <= j < |log| && Edge(g, log[j], w) ==> w in log[..j]
  }

  /** Nothing that the requested rules reach depends, directly or not, on itself. */
  ghost predicate NoCycle(g: Graph, labels: seq<Label>) {
    forall v, w :: Requested(g, labels, v) && Edge(g, v, w) ==> !Reaches(g, w, v)
  }

  // Where dependencies come first, whatever a node reaches does not come after it.
  lemma {:induction false} ReachesBack(g: Graph, log: seq<Node>, j: nat, w: Node, n: nat)
    requires DependenciesFirst(g, log) && j < |log| && ReachesIn(g, n, log[j], w)
    ensures w in log[..j + 1]
    decreases n
  {
    if n == 0 {
      assert log[..j + 1][j] == w;
    } else {
      var u :| ReachesIn(g, n - 1, log[j], u) && Edge(g, u, w);
      ReachesBack(g, log, j, u, n - 1);
      var i :| 0 <= i < |log[..j + 1]| && log[..j + 1][i] == u;
      assert w in log[..i];
    }
  }

  /** Every dependency is executed before its dependent exactly when the requested rules
      reach no cycle. */
  lemma DependenciesFirstExactly(g: Graph, labels: seq<Label>, log: seq<Node>)
    requires IsBuild(g, labels, log)
    ensures DependenciesFirst(g, log) <==> NoCycle(g, labels)
  {
    if NoCycle(g, labels) {
      forall j, w | 0 <= j < |log| && Edge(g, log[j], w) ensures w in log[..j] {
        assert log[j] in log;
      }
    }
    if DependenciesFirst(g, log) {
      forall v, w | Requested(g, labels, v) && Edge(g, v, w) ensures !Reaches(g, w, v) {
        assert v in log;
        var j :| 0 <= j < |log| && log[j] == v;
        assert w in log[..j];
        var i :| 0 <= i < j && log[i] == w;
        if n: nat :| ReachesIn(g, n, w, v) {
          ReachesBack(g, log, i, v, n);
          assert false;
        }
      }
    }
  }

  /** A rule that depends on itself is executed, before its dependency. */
  lemma CyclesBreakTheOrder(log: seq<Node>)
    requires IsBuild(Graph(map[0 := Rule([Dependency(0, None, None)], [], [])], map[]), [0], log)
    ensures !DependenciesFirst(Graph(map[0 := Rule([Dependency(0, None, None)], [], [])], map[]), log)
  {
    var d: Dependency := Dependency(0, None, None);
    var g := Graph(map[0 := Rule([d], [], [])], map[]);
    var v := Node(0, map[]);
    ReachesSelf(g, v);
    assert 0 in [0] && Requested(g, [0], v);
    assert d in AllDependencies(g.rules[0]) && IsVia(g, v, v, d);
    var j :| 0 <= j < |log| && log[j] == v;
    assert v !in log[..j];
  }
}
