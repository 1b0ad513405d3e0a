/**
  The first stage of `propagate`: the map from an input name to the
  constraints reading it (`dep_graph`) and, from it, the graph over
  constraint indices (`constraint_graph`).
 */
module DependencyGraph {
  import opened Values
  import opened Graph

  /** Some output of `a` is an input of `b`. */
  predicate Feeds(a: Constraint, b: Constraint)
  {
    exists o :: o in a.outputs && o in b.inputs
  }

  /** `dep_graph` after its loop: a name is a key exactly when some constraint reads it. */
  ghost predicate Readers(cs: seq<Constraint>, dep: map<string, set<nat>>)
  {
    && (forall name :: name in dep <==> exists i :: 0 <= i < |cs| && name in cs[i].inputs)
    && (forall name, j: nat :: name in dep ==> (j in dep[name] <==> j < |cs| && name in cs[j].inputs))
  }

  method BuildDepGraph(cs: seq<Constraint>) returns (dep: map<string, set<nat>>)
    ensures Readers(cs, dep)
  {
    dep := map[];
    for idx := 0 to |cs|
      invariant forall name :: name in dep <==> exists i :: 0 <= i < idx && name in cs[i].inputs
      invariant forall name, j: nat :: name in dep ==> (j in dep[name] <==> j < idx && name in cs[j].inputs)
    {
      var ins := cs[idx].inputs;
      for q := 0 to |ins|
        invariant forall name :: name in dep <==> (exists i :: 0 <= i < idx && name in cs[i].inputs) || name in ins[..q]
        invariant forall name, j: nat :: name in dep ==>
          (j in dep[name] <==> (j < idx && name in cs[j].inputs) || (j == idx && name in ins[..q]))
      {
        var name := ins[q];
        assert ins[..q + 1] == ins[..q] + [name];
        dep := dep[name := (if name in dep then dep[name] else {}) + {idx}];
      }
      assert ins[..|ins|] == ins;
    }
  }

  /** The keys of `constraint_graph` in the order the dictionary yields them: ascending. */
  predicate Ascending(roots: seq<nat>)
  {
    forall a, b :: 0 <= a < b < |roots| ==> roots[a] < roots[b]
  }

  /**
    `constraint_graph`: an edge `i -> j` exactly when `i` feeds `j`. A key is
    created only when a dependent is added, so no key has an empty set, and
    keys appear in ascending order.
   */
  method BuildConstraintGraph(cs: seq<Constraint>, dep: map<string, set<nat>>) returns (g: Graph, roots: seq<nat>)
    requires Readers(cs, dep)
    ensures forall i: nat, j: nat :: Edge(g, i, j) <==> i < |cs| && j < |cs| && Feeds(cs[i], cs[j])
    ensures forall i: nat :: i in g ==> g[i] != {}
    ensures (forall i: nat :: i in roots <==> i in g) && Ascending(roots)
  {
    g := map[];
    roots := [];
    for idx := 0 to |cs|
      invariant forall i: nat, j: nat :: Edge(g, i, j) <==> i < idx && j < |cs| && Feeds(cs[i], cs[j])
      invariant forall i: nat :: i in g ==> g[i] != {} && i < idx
      invariant (forall i: nat :: i in roots <==> i in g) && Ascending(roots)
    {
      var outs := cs[idx].outputs;
      for q := 0 to |outs|
        invariant forall i: nat, j: nat :: Edge(g, i, j) <==>
          (i < idx && j < |cs| && Feeds(cs[i], cs[j])) ||
          (i == idx && j < |cs| && exists o :: o in outs[..q] && o in cs[j].inputs)
        invariant forall i: nat :: i in g ==> g[i] != {} && i <= idx
        invariant (forall i: nat :: i in roots <==> i in g) && Ascending(roots)
        invariant forall i: nat :: i in roots && i != idx ==> i < idx
      {
        var out := outs[q];
        assert outs[..q + 1] == outs[..q] + [out];
        var deps := if out in dep then dep[out] else {};
        g, roots := AddDependents(g, roots, idx, deps);
      }
      assert outs[..|outs|] == outs;
    }
  }

  /** The inner loop: `constraint_graph[idx].add(d)` for every `d` in `deps`, creating the key on first use. */
  method AddDependents(g0: Graph, roots0: seq<nat>, idx: nat, deps: set<nat>) returns (g: Graph, roots: seq<nat>)
    requires forall i: nat :: i in g0 ==> g0[i] != {} && i <= idx
    requires (forall i: nat :: i in roots0 <==> i in g0) && Ascending(roots0)
    requires forall i: nat :: i in roots0 && i != idx ==> i < idx
    ensures forall i: nat :: Succ(g, i) == if i == idx then Succ(g0, idx) + deps else Succ(g0, i)
    ensures forall i: nat :: i in g ==> g[i] != {} && i <= idx
    ensures (forall i: nat :: i in roots <==> i in g) && Ascending(roots)
    ensures forall i: nat :: i in roots && i != idx ==> i < idx
  {
    g, roots := g0, roots0;
    var todo := deps;
    while todo != {}
      invariant todo <= deps
      invariant forall i: nat :: Succ(g, i) == if i == idx then Succ(g0, idx) + (deps - todo) else Succ(g0, i)
      invariant forall i: nat :: i in g ==> g[i] != {} && i <= idx
      invariant (forall i: nat :: i in roots <==> i in g) && Ascending(roots)
      invariant forall i: nat :: i in roots && i != idx ==> i < idx
      decreases todo
    {
      var d :| d in todo;
      if idx !in g {
        forall a | 0 <= a < |roots| ensures roots[a] < idx {
          assert roots[a] in roots;
        }
        roots := roots + [idx];
      }
      g := g[idx := Succ(g, idx) + {d}];
      todo := todo - {d};
    }
  }

  /**
    The constraints Tarjan's search visits are exactly those that feed, or are
    fed by, some constraint: one with no such partner is in no component.
   */
  lemma SearchedIffLinked(cs: seq<Constraint>, g: Graph, x: nat)
    requires forall i: nat, j: nat :: Edge(g, i, j) <==> i < |cs| && j < |cs| && Feeds(cs[i], cs[j])
    requires forall i: nat :: i in g ==> g[i] != {}
    ensures x in Vertices(g) <==> x < |cs| && exists j :: 0 <= j < |cs| && (Feeds(cs[x], cs[j]) || Feeds(cs[j], cs[x]))
  {
    VerticesAreEdgeEnds(g, x);
    if x < |cs| && exists j :: 0 <= j < |cs| && (Feeds(cs[x], cs[j]) || Feeds(cs[j], cs[x])) {
      var j :| 0 <= j < |cs| && (Feeds(cs[x], cs[j]) || Feeds(cs[j], cs[x]));
      assert Edge(g, x, j) || Edge(g, j, x);
    }
  }

  /** A self-loop is a constraint reading one of its own outputs. */
  lemma SelfLoop(cs: seq<Constraint>, g: Graph, i: nat)
    requires forall i: nat, j: nat :: Edge(g, i, j) <==> i < |cs| && j < |cs| && Feeds(cs[i], cs[j])
    requires i < |cs|
    ensures Edge(g, i, i) <==> exists o :: o in cs[i].outputs && o in cs[i].inputs
  {
  }
}
