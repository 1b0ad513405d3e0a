/**
  Directed graphs over constraint indices, as `propagate` builds them: a map
  from a constraint index to the set of indices of the constraints that read
  one of its outputs. A missing key has no successors (`graph.get(node, set())`).
 */
module Graph {

  type Graph = map<nat, set<nat>>

  /** The successors of `x`; empty when `x` is not a key. */
  function Succ(g: Graph, x: nat): set<nat>
  {
    if x in g then g[x] else {}
  }

  predicate Edge(g: Graph, x: nat, y: nat)
  {
    y in Succ(g, x)
  }

  /** Every node Tarjan's search can meet: the keys and their successors. */
  function Vertices(g: Graph): set<nat>
  {
    g.Keys + (set x, y | x in g && y in g[x] :: y)
  }

  lemma EdgeEnds(g: Graph, x: nat, y: nat)
    requires Edge(g, x, y)
    ensures x in Vertices(g) && y in Vertices(g)
  {
  }

  /** A non-empty sequence of nodes, each joined to the next by an edge. */
  ghost predicate IsPath(g: Graph, p: seq<nat>)
  {
    |p| > 0 && forall i, j :: 0 <= i < |p| - 1 && j == i + 1 ==> Edge(g, p[i], p[j])
  }

  /** Reflexive-transitive reachability. */
  ghost predicate Reach(g: Graph, x: nat, y: nat)
  {
    exists p :: IsPath(g, p) && p[0] == x && p[|p| - 1] == y
  }

  lemma ReachRefl(g: Graph, x: nat)
    ensures Reach(g, x, x)
  {
    assert IsPath(g, [x]);
  }

  lemma ReachEdge(g: Graph, x: nat, y: nat)
    requires Edge(g, x, y)
    ensures Reach(g, x, y)
  {
    assert IsPath(g, [x, y]);
  }

  lemma ReachTrans(g: Graph, x: nat, y: nat, z: nat)
    requires Reach(g, x, y) && Reach(g, y, z)
    ensures Reach(g, x, z)
  {
    var p :| IsPath(g, p) && p[0] == x && p[|p| - 1] == y;
    var q :| IsPath(g, q) && q[0] == y && q[|q| - 1] == z;
    var r := p + q[1..];
    forall i, j | 0 <= i < |r| - 1 && j == i + 1
      ensures Edge(g, r[i], r[j])
    {
      if i < |p| - 1 {
        assert r[i] == p[i] && r[i + 1] == p[i + 1];
      } else {
        assert r[i] == q[i - |p| + 1] && r[i + 1] == q[i - |p| + 2];
      }
    }
    assert IsPath(g, r);
  }

  lemma ReachStep(g: Graph, x: nat, y: nat, z: nat)
    requires Reach(g, x, y) && Edge(g, y, z)
    ensures Reach(g, x, z)
  {
    ReachEdge(g, y, z);
    ReachTrans(g, x, y, z);
  }

  /** When no key has an empty successor set, the vertices are exactly the ends of edges. */
  lemma VerticesAreEdgeEnds(g: Graph, x: nat)
    requires forall y :: y in g ==> g[y] != {}
    ensures x in Vertices(g) <==> exists y :: Edge(g, x, y) || Edge(g, y, x)
  {
    if x in g {
      var y :| y in g[x];
      assert Edge(g, x, y);
    } else if x in Vertices(g) {
      var y :| y in g && x in g[y];
      assert Edge(g, y, x);
    }
    if exists y :: Edge(g, x, y) || Edge(g, y, x) {
      var y :| Edge(g, x, y) || Edge(g, y, x);
      if Edge(g, x, y) {
        EdgeEnds(g, x, y);
      } else {
        EdgeEnds(g, y, x);
      }
    }
  }
}
