/**
  The `ConstraintLattice` object: a node map and a list of registered
  constraints, and `propagate`, which runs every strongly connected
  component of the constraint graph in producer-before-consumer order.
 */
module Lattice {
  import opened Wrappers
  import opened Values
  import opened Graph
  import opened Tarjan
  import opened DependencyGraph
  import opened Rounding
  import opened Solver

  /** Constraint `i` has an edge in the constraint graph: only such constraints are ever evaluated. */
  ghost predicate Linked(cs: seq<Constraint>, i: nat)
  {
    i < |cs| && exists j :: 0 <= j < |cs| && (Feeds(cs[i], cs[j]) || Feeds(cs[j], cs[i]))
  }

  /** `name` is an output of a constraint that propagation evaluates. */
  ghost predicate Written(cs: seq<Constraint>, name: string)
  {
    exists i: nat {:trigger cs[i]} :: Linked(cs, i) && name in cs[i].outputs
  }

  /**
    What propagation can do to the node map: no node disappears, and a node
    that no evaluated constraint writes keeps its value or is rounded.
   */
  ghost predicate Settled(cs: seq<Constraint>, before: Nodes, after: Nodes)
  {
    && before.Keys <= after.Keys
    && forall k :: k in after ==>
         Written(cs, k) || (k in before && (after[k] == before[k] || after[k] == RoundValue(before[k])))
  }

  /** Every member of a component Tarjan's search returns is a linked constraint. */
  lemma ComponentsLinked(cs: seq<Constraint>, g: Graph, sccs: seq<seq<nat>>, i: nat, m: nat)
    requires forall i: nat, j: nat :: Edge(g, i, j) <==> i < |cs| && j < |cs| && Feeds(cs[i], cs[j])
    requires forall i: nat :: i in g ==> g[i] != {}
    requires Decomposition(g, sccs) && i < |sccs| && m < |sccs[i]|
    ensures Linked(cs, sccs[i][m])
  {
    assert sccs[i][m] in sccs[i];
    assert InScc(sccs, sccs[i][m]);
    SearchedIffLinked(cs, g, sccs[i][m]);
  }

  /** One component's solve keeps propagation `Settled`. */
  lemma SettledStep(cs: seq<Constraint>, scc: seq<nat>, n0: Nodes, n1: Nodes, n2: Nodes)
    requires Settled(cs, n0, n1)
    requires forall m :: 0 <= m < |scc| ==> Linked(cs, scc[m])
    requires n1.Keys <= n2.Keys
    requires forall k :: k in n2 && (k !in n1 || n2[k] != n1[k]) ==>
               OutputOf(cs, scc, k) || (k in n1 && n2[k] == RoundValue(n1[k]))
    ensures Settled(cs, n0, n2)
  {
    forall k | k in n2
      ensures Written(cs, k) || (k in n0 && (n2[k] == n0[k] || n2[k] == RoundValue(n0[k])))
    {
      if OutputOf(cs, scc, k) {
        var m :| 0 <= m < |scc| && scc[m] < |cs| && k in cs[scc[m]].outputs;
        assert Linked(cs, scc[m]);
      } else if k in n1 && !Written(cs, k) {
        RoundValueIdempotent(n0[k]);
      }
    }
  }

  class ConstraintLattice {
    var nodes: Nodes
    var constraints: seq<Constraint>

    constructor ()
      ensures nodes == map[] && constraints == []
    {
      nodes := map[];
      constraints := [];
    }

    /** `add_node`: sets the node, replacing any earlier value; the value defaults to unset. */
    method AddNode(name: string, value: Value := Unset)
      modifies this
      ensures nodes == old(nodes)[name := value]
      ensures constraints == old(constraints)
    {
      nodes := nodes[name := value];
    }

    /** `add_constraint`: registers the constraint after all earlier ones. */
    method AddConstraint(func: seq<Value> -> seq<Value>, inputs: seq<string>, outputs: seq<string>)
      modifies this
      ensures constraints == old(constraints) + [Constraint(func, inputs, outputs)]
      ensures nodes == old(nodes)
    {
      constraints := constraints + [Constraint(func, inputs, outputs)];
    }

    /**
      `propagate`: builds the constraint graph, orders its components with
      producers first and solves each in turn. A fault is the exception
      `propagate` lets escape; the nodes then keep the updates made so far.
     */
    method Propagate(la: LinAlg) returns (fault: Option<Fault>)
      modifies this
      ensures constraints == old(constraints)
      ensures Settled(constraints, old(nodes), nodes)
    {
      var cs := constraints;
      var dep := BuildDepGraph(cs);
      var g, roots := BuildConstraintGraph(cs, dep);
      var emitted := TarjanScc(g, roots);
      var order := Reversed(emitted);
      fault := None;
      for i := 0 to |order|
        invariant constraints == cs
        invariant Settled(cs, old(nodes), nodes)
      {
        var scc := order[i];
        forall m | 0 <= m < |scc| ensures Linked(cs, scc[m]) {
          ComponentsLinked(cs, g, emitted, |emitted| - 1 - i, m);
        }
        var next, vars, route, f := SolveScc(la, cs, scc, nodes);
        SettledStep(cs, scc, old(nodes), nodes, next);
        nodes := next;
        if f.Some? {
          return f;
        }
      }
    }
  }
}
