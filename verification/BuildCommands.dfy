/**
  The build command (python/foreman/foreman.py), told from the rules as they are
  declared: what is executed, in which environments and in which order.
 */
module BuildCommands {
  import opened Common
  import opened BuildGraphs
  import opened BuildExecutors
  import opened BuildLoaders

  /** The declaration `d` makes `r` a dependency of `l`: it stands at `l` and names `r`,
      or it is a reverse dependency that stands at `r`, in the forward closure of the
      requested rules, and names `l`. */
  ghost predicate Declares(rules: Rules, args: seq<Label>, l: Label, r: Label, d: Dependency) {
    || (l in rules && d in rules[l].dependencies && d.rule == r)
    || (l in rules && d in rules[l].fromReverseDependencies && d.rule == r)
    || (r in rules && InClosure(rules, args, r) && d in rules[r].reverseDependencies && d.rule == l)
  }

  function At(env: Env, k: Label): Option<Value> {
    if k in env then Some(env[k]) else None
  }

  /** `env'` is `env` with the parameters of the declaration, key by key. */
  ghost predicate Changed(base: Env, env: Env, parameters: Option<Change>, env': Env) {
    forall k: Label :: At(env', k) ==
      match parameters
      case None => At(env, k)
      case Some(Remove) => At(base, k)
      case Some(Set(values)) => if k in values then Some(values[k]) else At(env, k)
  }

  ghost predicate HoldsAt(d: Dependency, l: Label, env: Env) {
    d.when.None? || d.when.value(l, env)
  }

  /** The build `v` depends on the build `w`. */
  ghost predicate Wants(rules: Rules, base: Env, args: seq<Label>, v: Node, w: Node) {
    v.rule in rules && exists d ::
      && Declares(rules, args, v.rule, w.rule, d)
      && HoldsAt(d, v.rule, v.env) && Changed(base, v.env, d.parameters, w.env)
  }

  ghost predicate LeadsIn(rules: Rules, base: Env, args: seq<Label>, n: nat, v: Node, w: Node)
    decreases n
  {
    if n == 0 then v == w
    else exists u :: LeadsIn(rules, base, args, n - 1, v, u) && Wants(rules, base, args, u, w)
  }

  ghost predicate Leads(rules: Rules, base: Env, args: seq<Label>, v: Node, w: Node) {
    exists n: nat :: LeadsIn(rules, base, args, n, v, w)
  }

  /** A requested rule, in the environment of the command line, leads to the build. */
  ghost predicate Wanted(rules: Rules, base: Env, args: seq<Label>, v: Node) {
    exists l :: l in args && Leads(rules, base, args, Node(l, base), v)
  }

  ghost predicate Acyclic(rules: Rules, base: Env, args: seq<Label>) {
    forall v, w :: Wanted(rules, base, args, v) && Wants(rules, base, args, v, w) ==>
      !Leads(rules, base, args, w, v)
  }

  ghost predicate Before(log: seq<Node>, w: Node, v: Node) {
    exists i, j :: 0 <= i < j < |log| && log[i] == w && log[j] == v
  }

  // ---- The resolved graph ----

  lemma ChangedIs(base: Env, env: Env, d: Dependency, env': Env)
    ensures Changed(base, env, d.parameters, env') <==> env' == NextEnv(base, env, d)
  {
    var next := NextEnv(base, env, d);
    if Changed(base, env, d.parameters, env') {
      forall k: Label ensures At(env', k) == At(next, k) {
      }
      forall k | k in env' || k in next ensures k in env' && k in next && env'[k] == next[k] {
        assert At(env', k) == At(next, k);
      }
    }
  }

  lemma {:induction false} TurnedMembers(reverse: seq<Dependency>, from: Label, to: Label, d: Dependency)
    ensures d in Turned(reverse, from, to) <==> exists e :: e in reverse && e.rule == to && d == WithLabel(e, from)
  {
    if reverse != [] {
      var init, last := reverse[..|reverse| - 1], reverse[|reverse| - 1];
      TurnedMembers(init, from, to, d);
      assert reverse == init + [last] && last in reverse;
      if d in Turned(init, from, to) {
        var e :| e in init && e.rule == to && d == WithLabel(e, from);
        assert e in reverse;
      }
      if e :| e in reverse && e.rule == to && d == WithLabel(e, from) {
        assert e in init || e == last;
      }
    }
  }

  /** A dependency of the resolved graph is a declared one. */
  lemma EdgeIsDeclared(rules: Rules, base: Env, args: seq<Label>, order: seq<Label>, v: Node, w: Node)
    requires IsWalk(rules, args, order) && Edge(Graph(Resolved(rules, order), base), v, w)
    ensures Wants(rules, base, args, v, w)
  {
    var g := Graph(Resolved(rules, order), base);
    var d :| IsVia(g, v, w, d);
    ChangedIs(base, v.env, d, w.env);
    if d in Handed(rules, order, v.rule) {
      HandedMembers(rules, order, v.rule, d);
      var r :| r in order && HandsTo(rules, r, v.rule, d);
      TurnedMembers(rules[r].reverseDependencies, r, v.rule, d);
      var e :| e in rules[r].reverseDependencies && e.rule == v.rule && d == WithLabel(e, r);
      assert Declares(rules, args, v.rule, w.rule, e) && HoldsAt(e, v.rule, v.env);
    } else {
      assert Declares(rules, args, v.rule, w.rule, d) && HoldsAt(d, v.rule, v.env);
    }
  }

  lemma DeclaredIsEdge(rules: Rules, base: Env, args: seq<Label>, order: seq<Label>, v: Node, w: Node)
    requires IsWalk(rules, args, order) && Wants(rules, base, args, v, w)
    ensures Edge(Graph(Resolved(rules, order), base), v, w)
  {
    var g := Graph(Resolved(rules, order), base);
    var d :|
      && Declares(rules, args, v.rule, w.rule, d)
      && HoldsAt(d, v.rule, v.env) && Changed(base, v.env, d.parameters, w.env);
    ChangedIs(base, v.env, d, w.env);
    if (d in rules[v.rule].dependencies || d in rules[v.rule].fromReverseDependencies) && d.rule == w.rule {
      assert d in AllDependencies(g.rules[v.rule]) && IsVia(g, v, w, d);
    } else {
      var e := WithLabel(d, w.rule);
      TurnedMembers(rules[w.rule].reverseDependencies, w.rule, v.rule, e);
      assert w.rule in order && HandsTo(rules, w.rule, v.rule, e);
      HandedMembers(rules, order, v.rule, e);
      assert e in AllDependencies(g.rules[v.rule]) && IsVia(g, v, w, e);
    }
  }

  lemma {:induction false} LeadsReaches(rules: Rules, base: Env, args: seq<Label>, order: seq<Label>, n: nat,
                                        v: Node, w: Node)
    requires IsWalk(rules, args, order) && LeadsIn(rules, base, args, n, v, w)
    ensures ReachesIn(Graph(Resolved(rules, order), base), n, v, w)
    decreases n
  {
    if n > 0 {
      var u :| LeadsIn(rules, base, args, n - 1, v, u) && Wants(rules, base, args, u, w);
      LeadsReaches(rules, base, args, order, n - 1, v, u);
      DeclaredIsEdge(rules, base, args, order, u, w);
    }
  }

  lemma {:induction false} ReachesLeads(rules: Rules, base: Env, args: seq<Label>, order: seq<Label>, n: nat,
                                        v: Node, w: Node)
    requires IsWalk(rules, args, order) && ReachesIn(Graph(Resolved(rules, order), base), n, v, w)
    ensures LeadsIn(rules, base, args, n, v, w)
    decreases n
  {
    if n > 0 {
      var g := Graph(Resolved(rules, order), base);
      var u :| ReachesIn(g, n - 1, v, u) && Edge(g, u, w);
      ReachesLeads(rules, base, args, order, n - 1, v, u);
      EdgeIsDeclared(rules, base, args, order, u, w);
    }
  }

  lemma LeadsIsReach(rules: Rules, base: Env, args: seq<Label>, order: seq<Label>, v: Node, w: Node)
    requires IsWalk(rules, args, order)
    ensures Leads(rules, base, args, v, w) <==> Reaches(Graph(Resolved(rules, order), base), v, w)
  {
    var g := Graph(Resolved(rules, order), base);
    if n: nat :| LeadsIn(rules, base, args, n, v, w) {
      LeadsReaches(rules, base, args, order, n, v, w);
    }
    if n: nat :| ReachesIn(g, n, v, w) {
      ReachesLeads(rules, base, args, order, n, v, w);
    }
  }

  lemma WantedIsRequested(rules: Rules, base: Env, args: seq<Label>, order: seq<Label>, v: Node)
    requires IsWalk(rules, args, order)
    ensures Wanted(rules, base, args, v) <==> Requested(Graph(Resolved(rules, order), base), args, v)
  {
    forall l | l in args
      ensures Leads(rules, base, args, Node(l, base), v)
         <==> Reaches(Graph(Resolved(rules, order), base), Node(l, base), v)
    {
      LeadsIsReach(rules, base, args, order, Node(l, base), v);
    }
  }

  // ---- What the command executes ----

  /** The command executes exactly the builds that the requested rules lead to by the
      declared dependencies and reverse dependencies, each once. */
  lemma ExecutesExactly(rules: Rules, base: Env, args: seq<Label>, log: seq<Node>)
    requires IsCommand(rules, base, args, log)
    ensures Distinct(log) && forall v :: v in log <==> Wanted(rules, base, args, v)
  {
    var order := BuiltIn(rules, base, args, log);
    forall v ensures v in log <==> Wanted(rules, base, args, v) {
      WantedIsRequested(rules, base, args, order, v);
    }
  }

  lemma LeadsStep(rules: Rules, base: Env, args: seq<Label>, v: Node, w: Node)
    requires Wanted(rules, base, args, v) && Wants(rules, base, args, v, w)
    ensures Wanted(rules, base, args, w)
  {
    var l :| l in args && Leads(rules, base, args, Node(l, base), v);
    var n: nat :| LeadsIn(rules, base, args, n, Node(l, base), v);
    assert LeadsIn(rules, base, args, n + 1, Node(l, base), w);
  }

  /** So where `l` is executed and `r` is declared a dependency of it, at `l` or as a
      reverse dependency at `r`, then `r` is executed in the environment that the
      parameters of the declaration make. */
  lemma DeclaredIsExecuted(rules: Rules, base: Env, args: seq<Label>, log: seq<Node>, v: Node, d: Dependency, w: Node)
    requires IsCommand(rules, base, args, log) && v in log && v.rule in rules
    requires Declares(rules, args, v.rule, w.rule, d) && HoldsAt(d, v.rule, v.env)
    requires Changed(base, v.env, d.parameters, w.env)
    ensures w in log
  {
    ExecutesExactly(rules, base, args, log);
    LeadsStep(rules, base, args, v, w);
  }

  ghost predicate EachAfterItsWants(rules: Rules, base: Env, args: seq<Label>, log: seq<Node>) {
    forall v, w :: v in log && Wants(rules, base, args, v, w) ==> Before(log, w, v)
  }

  /** Each build comes after all it depends on exactly when no build leads back to
      itself. */
  lemma OrderedExactly(rules: Rules, base: Env, args: seq<Label>, log: seq<Node>)
    requires IsCommand(rules, base, args, log)
    ensures EachAfterItsWants(rules, base, args, log) <==> Acyclic(rules, base, args)
  {
    var order := BuiltIn(rules, base, args, log);
    var g := Graph(Resolved(rules, order), base);
    DependenciesFirstExactly(g, args, log);
    FirstIsAfter(rules, base, args, order, log);
    NoCycleIsAcyclic(rules, base, args, order);
  }

  lemma WantsIsEdge(rules: Rules, base: Env, args: seq<Label>, order: seq<Label>, v: Node, w: Node)
    requires IsWalk(rules, args, order)
    ensures Wants(rules, base, args, v, w) <==> Edge(Graph(Resolved(rules, order), base), v, w)
  {
    if Wants(rules, base, args, v, w) {
      DeclaredIsEdge(rules, base, args, order, v, w);
    }
    if Edge(Graph(Resolved(rules, order), base), v, w) {
      EdgeIsDeclared(rules, base, args, order, v, w);
    }
  }

  lemma NoCycleIsAcyclic(rules: Rules, base: Env, args: seq<Label>, order: seq<Label>)
    requires IsWalk(rules, args, order)
    ensures NoCycle(Graph(Resolved(rules, order), base), args) <==> Acyclic(rules, base, args)
  {
    var g := Graph(Resolved(rules, order), base);
    forall v, w
      ensures Requested(g, args, v) && Edge(g, v, w) && Reaches(g, w, v) <==>
              Wanted(rules, base, args, v) && Wants(rules, base, args, v, w) && Leads(rules, base, args, w, v)
    {
      WantedIsRequested(rules, base, args, order, v);
      WantsIsEdge(rules, base, args, order, v, w);
      LeadsIsReach(rules, base, args, order, w, v);
    }
  }

  lemma FirstIsAfter(rules: Rules, base: Env, args: seq<Label>, order: seq<Label>, log: seq<Node>)
    requires IsWalk(rules, args, order) && Distinct(log)
    ensures DependenciesFirst(Graph(Resolved(rules, order), base), log) <==> EachAfterItsWants(rules, base, args, log)
  {
    var g := Graph(Resolved(rules, order), base);
    if DependenciesFirst(g, log) {
      forall v, w | v in log && Wants(rules, base, args, v, w) ensures Before(log, w, v) {
        WantsIsEdge(rules, base, args, order, v, w);
        var j :| 0 <= j < |log| && log[j] == v;
        assert w in log[..j];
      }
    }
    if EachAfterItsWants(rules, base, args, log) {
      forall j, w | 0 <= j < |log| && Edge(g, log[j], w) ensures w in log[..j] {
        WantsIsEdge(rules, base, args, order, log[j], w);
        assert log[j] in log;
        var i, k :| 0 <= i < k < |log| && log[i] == w && log[k] == log[j];
        assert log[..j][i] == w;
      }
    }
  }

  // ---- The order of what is asked for ----

  lemma {:induction false} AskedConcat(base: Env, v: Node, a: seq<Dependency>, b: seq<Dependency>)
    ensures AskedOf(base, v, a + b) == AskedOf(base, v, a) + AskedOf(base, v, b)
    decreases |b|
  {
    if b == [] {
      assert a + b == a;
    } else {
      var init := b[..|b| - 1];
      AskedConcat(base, v, a, init);
      assert (a + b)[..|a + b| - 1] == a + init;
    }
  }

  lemma {:induction false} TurnedConcat(a: seq<Dependency>, b: seq<Dependency>, from: Label, to: Label)
    ensures Turned(a + b, from, to) == Turned(a, from, to) + Turned(b, from, to)
    decreases |b|
  {
    if b == [] {
      assert a + b == a;
    } else {
      var init := b[..|b| - 1];
      TurnedConcat(a, init, from, to);
      assert (a + b)[..|a + b| - 1] == a + init;
    }
  }

  lemma HandedSnoc(rules: Rules, order: seq<Label>, l: Label, to: Label)
    requires l in rules && forall m :: m in order ==> m in rules
    ensures Handed(rules, order + [l], to) == Handed(rules, order, to) + Turned(rules[l].reverseDependencies, l, to)
  {
    assert (order + [l])[..|order|] == order;
  }

  lemma HandedStep(rules: Rules, a: seq<Label>, init: seq<Label>, last: Label, to: Label)
    requires last in rules && (forall l :: l in a ==> l in rules) && (forall l :: l in init ==> l in rules)
    requires Handed(rules, a + init, to) == Handed(rules, a, to) + Handed(rules, init, to)
    ensures Handed(rules, a + (init + [last]), to) == Handed(rules, a, to) + Handed(rules, init + [last], to)
  {
    var turned := Turned(rules[last].reverseDependencies, last, to);
    assert a + (init + [last]) == a + init + [last];
    HandedSnoc(rules, a + init, last, to);
    HandedSnoc(rules, init, last, to);
    ConcatDependencies(Handed(rules, a, to), Handed(rules, init, to), turned);
  }

  lemma ConcatDependencies(a: seq<Dependency>, b: seq<Dependency>, c: seq<Dependency>)
    ensures (a + b) + c == a + (b + c)
  {
  }

  lemma {:induction false} HandedConcat(rules: Rules, a: seq<Label>, b: seq<Label>, to: Label)
    requires (forall l :: l in a ==> l in rules) && (forall l :: l in b ==> l in rules)
    ensures Handed(rules, a + b, to) == Handed(rules, a, to) + Handed(rules, b, to)
    decreases |b|
  {
    if b == [] {
      assert a + b == a;
    } else {
      var init, last := b[..|b| - 1], b[|b| - 1];
      assert b == init + [last] && last in b;
      HandedConcat(rules, a, init, to);
      HandedStep(rules, a, init, last, to);
    }
  }

  /** What is handed over comes in the order of the visits, and of one rule in the order of
      declaration. */
  lemma HandedInOrder(rules: Rules, early: seq<Label>, r: Label, x: seq<Dependency>, y: seq<Dependency>,
                      late: seq<Label>, to: Label)
    requires (forall l :: l in early || l in late ==> l in rules)
    requires r in rules && rules[r].reverseDependencies == x + y
    ensures Handed(rules, early + [r] + late, to)
         == Handed(rules, early, to) + (Turned(x, r, to) + Turned(y, r, to)) + Handed(rules, late, to)
  {
    HandedConcat(rules, early + [r], late, to);
    HandedConcat(rules, early, [r], to);
    assert [r][..0] == [] && Handed(rules, [r], to) == Turned(x + y, r, to);
    TurnedConcat(x, y, r, to);
  }

  /** A build asks for its declared dependencies first, in order, then for those handed to
      it, in order. */
  lemma AsksInOrder(rules: Rules, base: Env, order: seq<Label>, v: Node, x: seq<Dependency>, y: seq<Dependency>)
    requires v.rule in rules && rules[v.rule].dependencies == x + y && forall l :: l in order ==> l in rules
    ensures var rest := rules[v.rule].fromReverseDependencies + Handed(rules, order, v.rule);
            Asks(Graph(Resolved(rules, order), base), v)
            == AskedOf(base, v, x) + AskedOf(base, v, y) + AskedOf(base, v, rest)
  {
    AskedConcat(base, v, x + y, rules[v.rule].fromReverseDependencies + Handed(rules, order, v.rule));
    AskedConcat(base, v, x, y);
  }
}
