/**
  Build rules and the graph they span (python/foreman/foreman.py).  A node is a rule
  together with the environment it is built in, seen as one flat map of parameters.
 */
module BuildGraphs {
  import opened Common

  type Label = nat

  type Value(==, !new)

  type Env = map<Label, Value>

  /** What a dependency does to the environment: drop all but the parameters of the
      command line, or set some. */
  datatype Change = Remove | Set(values: Env)

  /** `when` is a pure question about the rule at hand and its environment. */
  datatype Dependency = Dependency(rule: Label, when: Option<(Label, Env) -> bool>, parameters: Option<Change>)

  datatype Rule = Rule(
    dependencies: seq<Dependency>, fromReverseDependencies: seq<Dependency>, reverseDependencies: seq<Dependency>)

  type Rules = map<Label, Rule>

  datatype Node = Node(rule: Label, env: Env)

  /** The rules and the parameters of the command line. */
  datatype Graph = Graph(rules: Rules, base: Env)

  function AllDependencies(rule: Rule): seq<Dependency> {
    rule.dependencies + rule.fromReverseDependencies
  }

  ghost predicate Closed(rules: Rules) {
    forall l, d ::
      l in rules && (d in AllDependencies(rules[l]) || d in rules[l].reverseDependencies) ==> d.rule in rules
  }

  predicate Applies(d: Dependency, v: Node) {
    d.when.Some? ==> d.when.value(v.rule, v.env)
  }

  function NextEnv(base: Env, env: Env, d: Dependency): Env {
    match d.parameters
    case None => env
    case Some(Remove) => base
    case Some(Set(values)) => env + values
  }

  /** `w` is a dependency of `v`. */
  ghost predicate Edge(g: Graph, v: Node, w: Node) {
    v.rule in g.rules && exists d :: IsVia(g, v, w, d)
  }

  ghost predicate IsVia(g: Graph, v: Node, w: Node, d: Dependency)
    requires v.rule in g.rules
  {
    && d in AllDependencies(g.rules[v.rule]) && Applies(d, v)
    && w == Node(d.rule, NextEnv(g.base, v.env, d))
  }

  // ---- Reachability ----

  ghost predicate ReachesIn(g: Graph, n: nat, v: Node, w: Node)
    decreases n
  {
    if n == 0 then v == w else exists u :: ReachesIn(g, n - 1, v, u) && Edge(g, u, w)
  }

  ghost predicate Reaches(g: Graph, v: Node, w: Node) {
    exists n: nat :: ReachesIn(g, n, v, w)
  }

  lemma ReachesSelf(g: Graph, v: Node)
    ensures Reaches(g, v, v)
  {
    assert ReachesIn(g, 0, v, v);
  }

  lemma ReachesStep(g: Graph, v: Node, u: Node, w: Node)
    requires Reaches(g, v, u) && Edge(g, u, w)
    ensures Reaches(g, v, w)
  {
    var n: nat :| ReachesIn(g, n, v, u);
    assert ReachesIn(g, n + 1, v, w);
  }

  lemma {:induction false} ReachesTrans(g: Graph, u: Node, v: Node, w: Node)
    requires Reaches(g, u, v) && Reaches(g, v, w)
    ensures Reaches(g, u, w)
  {
    var n: nat :| ReachesIn(g, n, v, w);
    ReachesOn(g, u, v, w, n);
  }

  lemma {:induction false} ReachesOn(g: Graph, u: Node, v: Node, w: Node, n: nat)
    requires Reaches(g, u, v) && ReachesIn(g, n, v, w)
    ensures Reaches(g, u, w)
    decreases n
  {
    if n > 0 {
      var x :| ReachesIn(g, n - 1, v, x) && Edge(g, x, w);
      ReachesOn(g, u, v, x, n - 1);
      ReachesStep(g, u, x, w);
    }
  }

  /** A set that contains a node and all dependencies of its members contains
      everything the node reaches. */
  lemma {:induction false} ClosedUnderReach(g: Graph, nodes: set<Node>, v: Node, w: Node)
    requires v in nodes && Reaches(g, v, w)
    requires forall a, b :: a in nodes && Edge(g, a, b) ==> b in nodes
    ensures w in nodes
  {
    var n: nat :| ReachesIn(g, n, v, w);
    ClosedUnderReachIn(g, nodes, v, w, n);
  }

  lemma {:induction false} ClosedUnderReachIn(g: Graph, nodes: set<Node>, v: Node, w: Node, n: nat)
    requires v in nodes && ReachesIn(g, n, v, w)
    requires forall a, b :: a in nodes && Edge(g, a, b) ==> b in nodes
    ensures w in nodes
    decreases n
  {
    if n > 0 {
      var x :| ReachesIn(g, n - 1, v, x) && Edge(g, x, w);
      ClosedUnderReachIn(g, nodes, v, x, n - 1);
    }
  }

  // ---- The graph is finite ----

  ghost function AllMaps(keys: set<Label>, values: set<Value>): set<Env> {
    if keys == {} then {map[]}
    else
      var k :| k in keys;
      var rest := AllMaps(keys - {k}, values);
      rest + (set m, x | m in rest && x in values :: m[k := x])
  }

  lemma {:induction false} AllMapsHas(keys: set<Label>, values: set<Value>, m: Env)
    requires m.Keys <= keys && m.Values <= values
    ensures m in AllMaps(keys, values)
    decreases keys
  {
    if keys == {} {
      assert m == map[];
    } else {
      var k :| k in keys && AllMaps(keys, values) ==
        (var rest := AllMaps(keys - {k}, values); rest + (set m, x | m in rest && x in values :: m[k := x]));
      var less := m - {k};
      assert less.Values <= values;
      AllMapsHas(keys - {k}, values, less);
      if k in m {
        assert m == less[k := m[k]] && m[k] in values;
      } else {
        assert m == less;
      }
    }
  }

  // The environments that occur in the rules and on the command line.
  ghost function Given(g: Graph): set<Env> {
    {g.base} + set l, i | l in g.rules && 0 <= i < |AllDependencies(g.rules[l])|
                          && AllDependencies(g.rules[l])[i].parameters.Some?
                          && AllDependencies(g.rules[l])[i].parameters.value.Set?
               :: AllDependencies(g.rules[l])[i].parameters.value.values
  }

  ghost function GivenKeys(g: Graph): set<Label> {
    set m, k | m in Given(g) && k in m :: k
  }

  ghost function GivenValues(g: Graph): set<Value> {
    set m, k | m in Given(g) && k in m :: m[k]
  }

  /** Every node that can come up. */
  ghost function Universe(g: Graph): set<Node> {
    set l, m | l in g.rules && m in AllMaps(GivenKeys(g), GivenValues(g)) :: Node(l, m)
  }

  ghost predicate Fits(g: Graph, env: Env) {
    env.Keys <= GivenKeys(g) && env.Values <= GivenValues(g)
  }

  lemma GivenFits(g: Graph, m: Env)
    requires m in Given(g)
    ensures Fits(g, m)
  {
    forall x | x in m.Values ensures x in GivenValues(g) {
      var k :| k in m && m[k] == x;
    }
  }

  lemma InUniverse(g: Graph, v: Node)
    requires v.rule in g.rules && Fits(g, v.env)
    ensures v in Universe(g)
  {
    AllMapsHas(GivenKeys(g), GivenValues(g), v.env);
    assert v == Node(v.rule, v.env);
  }

  lemma NextFits(g: Graph, v: Node, w: Node, d: Dependency)
    requires v.rule in g.rules && Fits(g, v.env) && IsVia(g, v, w, d)
    ensures Fits(g, w.env)
  {
    GivenFits(g, g.base);
    match d.parameters {
      case Some(Set(values)) =>
        var deps := AllDependencies(g.rules[v.rule]);
        var i :| 0 <= i < |deps| && deps[i] == d;
        assert values in Given(g);
        GivenFits(g, values);
        forall x | x in (v.env + values).Values ensures x in GivenValues(g) {
          var k :| k in v.env + values && (v.env + values)[k] == x;
          assert x in values.Values || x in v.env.Values;
        }
      case _ =>
    }
  }

  // ---- Environments as chains of maps ----

  /** A chain of maps, the front one first; the last one is the command line. */
  type Chain = c: seq<Env> | c != [] witness [map[]]

  function Flat(c: seq<Env>): Env {
    if c == [] then map[] else Flat(c[1..]) + c[0]
  }

  function Base(c: Chain): Env {
    c[|c| - 1]
  }

  function NextChain(c: Chain, d: Dependency): Chain {
    match d.parameters
    case None => c
    case Some(Remove) => [Base(c)]
    case Some(Set(values)) => if values == map[] then c else [values] + c
  }

  /** The next flat environment depends only on the flat one, however the chain is
      made up, and the command line stays at the end. */
  lemma NextChainIs(c: Chain, d: Dependency)
    ensures Flat(NextChain(c, d)) == NextEnv(Base(c), Flat(c), d)
    ensures Base(NextChain(c, d)) == Base(c)
  {
    match d.parameters {
      case None =>
      case Some(Remove) =>
        assert [Base(c)][1..] == [] && Flat([]) + Base(c) == Base(c);
      case Some(Set(values)) =>
        assert ([values] + c)[1..] == c;
        assert Flat(c) + map[] == Flat(c);
    }
  }
}
