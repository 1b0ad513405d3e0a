/**
  Tarjan's strongly connected components algorithm, as `_tarjan_scc` runs it:
  a recursive `strongconnect` sharing a counter, an explicit stack and the
  `indices`, `lowlinks` and `on_stack` dictionaries with its caller. The
  shared state is threaded through `TState`; the order in which a node's
  successors are taken is left open (`strongconnect` iterates a Python set).

  The ghost parameter `gray` is the chain of calls still active (the DFS
  path); it is used only by the proof.
 */
module Tarjan {
  import opened Graph

  /** The state `strongconnect` shares with its caller, apart from `lowlinks`. */
  datatype TState = TState(
    index: nat,
    stack: seq<nat>,
    indices: map<nat, nat>,
    onStack: map<nat, bool>,
    sccs: seq<seq<nat>>)

  function Min(a: nat, b: nat): nat
  {
    if a <= b then a else b
  }

  /** The DFS number of a visited node. */
  function Num(indices: map<nat, nat>, x: nat): nat
  {
    if x in indices then indices[x] else 0
  }

  ghost predicate InScc(sccs: seq<seq<nat>>, x: nat)
  {
    exists i {:trigger x in sccs[i]} :: 0 <= i < |sccs| && x in sccs[i]
  }

  predicate NoDup(q: seq<nat>)
  {
    forall a, b :: 0 <= a < b < |q| ==> q[a] != q[b]
  }

  // ---------------------------------------------------------------------
  // The invariant of the search, one predicate per concern
  // ---------------------------------------------------------------------

  ghost predicate Numbering(g: Graph, index: nat, indices: map<nat, nat>)
  {
    && (forall x :: x in indices ==> indices[x] < index && x in Vertices(g))
  }

  ghost predicate StackShape(indices: map<nat, nat>, onStack: map<nat, bool>, stack: seq<nat>)
  {
    && onStack.Keys == indices.Keys
    && (forall x :: x in onStack ==> (onStack[x] <==> x in stack))
    && (forall x :: x in stack ==> x in indices)
    && (forall i, j {:trigger Num(indices, stack[i]), Num(indices, stack[j])} :: 0 <= i < j < |stack| ==> Num(indices, stack[i]) < Num(indices, stack[j]))
  }

  /** Visited nodes are either on the stack or in exactly one emitted component. */
  ghost predicate Partition(indices: map<nat, nat>, stack: seq<nat>, sccs: seq<seq<nat>>)
  {
    && (forall x :: x in indices <==> x in stack || InScc(sccs, x))
    && (forall x :: x in stack ==> !InScc(sccs, x))
    && (forall i, j, x {:trigger x in sccs[i], x in sccs[j]} :: 0 <= i < |sccs| && 0 <= j < |sccs| && x in sccs[i] && x in sccs[j] ==> i == j)
    && (forall i :: 0 <= i < |sccs| ==> sccs[i] != [] && NoDup(sccs[i]))
  }

  /** A node on the stack reaches every node above it. */
  ghost predicate StackReach(g: Graph, stack: seq<nat>)
  {
    forall i, j {:trigger Reach(g, stack[i], stack[j])} :: 0 <= i <= j < |stack| ==> Reach(g, stack[i], stack[j])
  }

  /** The active calls, in DFS order: visited, numbered increasingly, each reaching the later ones. */
  ghost predicate GrayPath(g: Graph, indices: map<nat, nat>, gray: seq<nat>)
  {
    && (forall k :: 0 <= k < |gray| ==> gray[k] in indices)
    && (forall k, l {:trigger Num(indices, gray[k]), Num(indices, gray[l])} :: 0 <= k < l < |gray| ==> Num(indices, gray[k]) < Num(indices, gray[l]))
    && (forall k, l {:trigger Reach(g, gray[k], gray[l])} :: 0 <= k <= l < |gray| ==> Reach(g, gray[k], gray[l]))
  }

  /** `x` reaches an active node numbered no higher than itself. */
  ghost predicate ReachesGray(g: Graph, indices: map<nat, nat>, x: nat, gray: seq<nat>)
  {
    exists k :: 0 <= k < |gray| && Num(indices, gray[k]) <= Num(indices, x) && Reach(g, x, gray[k])
  }

  /** Every node on the stack reaches an active node numbered no higher. */
  ghost predicate ReachGray(g: Graph, indices: map<nat, nat>, stack: seq<nat>, gray: seq<nat>)
  {
    forall i {:trigger ReachesGray(g, indices, stack[i], gray)} :: 0 <= i < |stack| ==> ReachesGray(g, indices, stack[i], gray)
  }

  /** A finished node has had all its successors visited. */
  ghost predicate BlackClosed(g: Graph, indices: map<nat, nat>, gray: seq<nat>)
  {
    forall x :: x in indices && x !in gray ==> Succ(g, x) <= indices.Keys
  }

  /** Emitted components only lead to components emitted no later. */
  ghost predicate EmitClosed(g: Graph, sccs: seq<seq<nat>>)
  {
    forall i, x, y {:trigger x in sccs[i], y in Succ(g, x)} :: 0 <= i < |sccs| && x in sccs[i] && y in Succ(g, x) ==>
      exists j :: 0 <= j <= i && y in sccs[j]
  }

  /** Emitted components are strongly connected. */
  ghost predicate EmitConnected(g: Graph, sccs: seq<seq<nat>>)
  {
    forall i, x, y {:trigger Reach(g, x, y), sccs[i]} :: 0 <= i < |sccs| && x in sccs[i] && y in sccs[i] ==> Reach(g, x, y)
  }

  ghost predicate Inv(g: Graph, s: TState, gray: seq<nat>)
  {
    && Numbering(g, s.index, s.indices)
    && StackShape(s.indices, s.onStack, s.stack)
    && Partition(s.indices, s.stack, s.sccs)
    && StackReach(g, s.stack)
    && GrayPath(g, s.indices, gray)
    && ReachGray(g, s.indices, s.stack, gray)
    && BlackClosed(g, s.indices, gray)
    && EmitClosed(g, s.sccs)
    && EmitConnected(g, s.sccs)
  }

  /** How a call may change the state: it only adds nodes, pushes new ones and emits components. */
  ghost predicate Grows(s0: TState, s: TState)
  {
    && s0.index <= s.index
    && (forall x :: x in s0.indices ==> x in s.indices && s.indices[x] == s0.indices[x])
    && (forall x :: x in s.indices && x !in s0.indices ==> s.indices[x] >= s0.index)
    && |s0.stack| <= |s.stack| && (forall i :: 0 <= i < |s0.stack| ==> s.stack[i] == s0.stack[i])
    && (forall i :: |s0.stack| <= i < |s.stack| ==> s.stack[i] !in s0.indices)
  }

  /** Lowlinks are only ever added, apart from the one of the node being searched. */
  ghost predicate LowKept(low0: map<nat, nat>, low: map<nat, nat>)
  {
    forall x :: x in low0 ==> x in low && low[x] == low0[x]
  }

  /** The bound that the lowlink of `v` keeps on the successors still on the stack. */
  ghost predicate LowBound(g: Graph, s: TState, low: map<nat, nat>, v: nat, todo: set<nat>)
    requires v in s.indices && v in low
  {
    forall x, y :: x in s.stack && Num(s.indices, x) >= s.indices[v] && y in Succ(g, x) && y in s.stack && (x != v || y !in todo) ==>
      low[v] <= Num(s.indices, y)
  }

  /** The successor loop of `strongconnect(v)`, beside the search invariant. */
  ghost predicate LoopExtra(g: Graph, s0: TState, low0: map<nat, nat>, s: TState, low: map<nat, nat>, v: nat, todo: set<nat>)
  {
    && Grows(s0, s) && LowKept(low0, low) && (forall x :: x in low ==> x in s.indices)
    && v !in s0.indices && v !in low0
    && v in s.indices && s.indices[v] == s0.index && v in low
    && |s0.stack| < |s.stack| && s.stack[|s0.stack|] == v
    && todo <= Succ(g, v)
    && (forall y :: y in Succ(g, v) && y !in todo ==> y in s.indices)
    && low[v] <= s.indices[v]
    && (exists y {:trigger Reach(g, v, y)} :: y in s.stack && Num(s.indices, y) == low[v] && Reach(g, v, y))
    && LowBound(g, s, low, v, todo)
  }

  // ---------------------------------------------------------------------
  // strongconnect
  // ---------------------------------------------------------------------

  /** The result of `strongconnect(v)` as its caller relies on it. */
  ghost predicate Connected(g: Graph, s0: TState, low0: map<nat, nat>, s: TState, low: map<nat, nat>, v: nat,
                            gray: seq<nat>)
  {
    && Inv(g, s, gray)
    && Grows(s0, s) && LowKept(low0, low) && (forall x :: x in low ==> x in s.indices)
    && v in s.indices && s.indices[v] == s0.index && v in low
    && (v in s.stack ==>
          low[v] < s.indices[v] && exists y {:trigger Reach(g, v, y)} :: y in s.stack && Num(s.indices, y) == low[v] && Reach(g, v, y))
    && (v !in s.stack ==> |s.stack| == |s0.stack| && low[v] >= s.indices[v])
    && LowBound(g, s, low, v, {})
  }

  method StrongConnect(g: Graph, v: nat, s0: TState, low0: map<nat, nat>, ghost gray: seq<nat>)
    returns (s: TState, low: map<nat, nat>)
    requires Inv(g, s0, gray) && (forall x :: x in low0 ==> x in s0.indices)
    requires v in Vertices(g) && v !in s0.indices
    requires |gray| == 0 ==> |s0.stack| == 0
    requires gray != [] ==> Edge(g, gray[|gray| - 1], v)
    ensures Connected(g, s0, low0, s, low, v, gray)
    decreases Vertices(g) - s0.indices.Keys, 0
  {
    s := TState(s0.index + 1, s0.stack + [v], s0.indices[v := s0.index], s0.onStack[v := true], s0.sccs);
    low := low0[v := s0.index];
    PushPreserves(g, s0, low0, s, low, v, gray);
    var todo := Succ(g, v);
    while todo != {}
      invariant Inv(g, s, gray + [v])
      invariant LoopExtra(g, s0, low0, s, low, v, todo)
      decreases todo
    {
      var w :| w in todo;
      assert v in Vertices(g) - s0.indices.Keys && v !in Vertices(g) - s.indices.Keys;
      s, low := VisitSuccessor(g, s0, low0, s, low, v, w, gray, todo);
      todo := todo - {w};
    }
    if low[v] == s.indices[v] {
      s := PopComponent(g, s0, low0, s, low, v, gray);
    } else {
      FinishPreserves(g, s0, low0, s, low, v, gray);
    }
  }

  /** One iteration of the successor loop of `strongconnect(v)`, on the successor `w`. */
  method VisitSuccessor(g: Graph, s0: TState, low0: map<nat, nat>, sPre: TState, lowPre: map<nat, nat>, v: nat, w: nat,
                        ghost gray: seq<nat>, ghost todo: set<nat>)
    returns (s: TState, low: map<nat, nat>)
    requires Inv(g, sPre, gray + [v])
    requires LoopExtra(g, s0, low0, sPre, lowPre, v, todo)
    requires w in todo
    ensures Inv(g, s, gray + [v])
    ensures LoopExtra(g, s0, low0, s, low, v, todo - {w})
    decreases Vertices(g) - sPre.indices.Keys, 2
  {
    if w !in sPre.indices {
      s, low := VisitChild(g, s0, low0, sPre, lowPre, v, w, gray, todo);
    } else if sPre.onStack[w] {
      s, low := sPre, lowPre[v := Min(lowPre[v], sPre.indices[w])];
      OnStackStep(g, s0, low0, s, lowPre, low, v, w, todo);
    } else {
      s, low := sPre, lowPre;
      VisitedStep(g, s0, low0, s, low, v, w, todo);
    }
  }

  /** The successor `w` of `v` is unvisited: search it, then take its lowlink into account. */
  method VisitChild(g: Graph, s0: TState, low0: map<nat, nat>, sPre: TState, lowPre: map<nat, nat>, v: nat, w: nat,
                    ghost gray: seq<nat>, ghost todo: set<nat>)
    returns (s: TState, low: map<nat, nat>)
    requires Inv(g, sPre, gray + [v])
    requires LoopExtra(g, s0, low0, sPre, lowPre, v, todo)
    requires w in todo && w !in sPre.indices
    ensures Inv(g, s, gray + [v])
    ensures LoopExtra(g, s0, low0, s, low, v, todo - {w})
    decreases Vertices(g) - sPre.indices.Keys, 1
  {
    EdgeEnds(g, v, w);
    var low1;
    s, low1 := StrongConnect(g, w, sPre, lowPre, gray + [v]);
    low := ChildLowlink(g, s0, low0, sPre, lowPre, s, low1, v, w, gray, todo);
  }

  /** After `strongconnect(w)` returns: the lowlink of `v` takes the one of `w` into account. */
  method ChildLowlink(g: Graph, s0: TState, low0: map<nat, nat>, sPre: TState, lowPre: map<nat, nat>, s: TState,
                      low1: map<nat, nat>, v: nat, w: nat, ghost gray: seq<nat>, ghost todo: set<nat>)
    returns (low: map<nat, nat>)
    requires Inv(g, sPre, gray + [v])
    requires LoopExtra(g, s0, low0, sPre, lowPre, v, todo)
    requires w in todo && w !in sPre.indices
    requires Connected(g, sPre, lowPre, s, low1, w, gray + [v])
    ensures low == low1[v := Min(low1[v], low1[w])]
    ensures Inv(g, s, gray + [v])
    ensures LoopExtra(g, s0, low0, s, low, v, todo - {w})
  {
    low := low1[v := Min(low1[v], low1[w])];
    ChildStep(g, s0, low0, sPre, lowPre, s, low1, low, v, w, gray, todo);
  }

  /** `v` is the root of a component: pop the stack down to `v` and emit the popped nodes. */
  method PopComponent(g: Graph, s0: TState, low0: map<nat, nat>, sF: TState, low: map<nat, nat>, v: nat,
                      ghost gray: seq<nat>) returns (s: TState)
    requires Inv(g, s0, gray)
    requires Inv(g, sF, gray + [v])
    requires LoopExtra(g, s0, low0, sF, low, v, {})
    requires low[v] == sF.indices[v]
    ensures Connected(g, s0, low0, s, low, v, gray)
  {
    var stack, onStack, scc := PopUntil(sF.indices, sF.onStack, sF.stack, v, |s0.stack|);
    s := sF.(stack := stack, onStack := onStack, sccs := sF.sccs + [scc]);
    PopPreserves(g, s0, sF, s, low, v, gray, scc);
    PopConnected(g, s0, low0, s, low, v, gray);
  }

  /** The loop that pops nodes off the stack until it has popped `v`, which sits at position `n`. */
  method PopUntil(indices: map<nat, nat>, onStack0: map<nat, bool>, stack0: seq<nat>, v: nat, ghost n: nat)
    returns (stack: seq<nat>, onStack: map<nat, bool>, scc: seq<nat>)
    requires StackShape(indices, onStack0, stack0)
    requires n < |stack0| && stack0[n] == v
    ensures stack == stack0[..n]
    ensures |scc| == |stack0| - n && forall t :: 0 <= t < |scc| ==> scc[t] == stack0[|stack0| - 1 - t]
    ensures onStack.Keys == onStack0.Keys && forall x :: x in onStack ==> (onStack[x] <==> x in stack)
  {
    stack := stack0;
    onStack := onStack0;
    scc := [];
    while true
      invariant n < |stack| <= |stack0| && stack == stack0[..|stack|]
      invariant |scc| == |stack0| - |stack|
      invariant forall t :: 0 <= t < |scc| ==> scc[t] == stack0[|stack0| - 1 - t]
      invariant onStack.Keys == onStack0.Keys
      invariant forall x :: x in onStack ==> (onStack[x] <==> x in stack)
      decreases |stack|
    {
      var w := stack[|stack| - 1];
      StackDistinct(indices, onStack0, stack0, |stack| - 1);
      stack := stack[..|stack| - 1];
      onStack := onStack[w := false];
      scc := scc + [w];
      if w == v {
        assert |stack| == n;
        break;
      }
      assert |stack| != n;
    }
  }

  // ---------------------------------------------------------------------
  // Facts about sequences and the stack
  // ---------------------------------------------------------------------

  lemma Position(q: seq<nat>, x: nat) returns (p: nat)
    requires x in q
    ensures p < |q| && q[p] == x
  {
    p :| 0 <= p < |q| && q[p] == x;
  }

  /** Stack positions follow DFS numbers. */
  lemma StackOrder(indices: map<nat, nat>, onStack: map<nat, bool>, stack: seq<nat>, i: nat, j: nat)
    requires StackShape(indices, onStack, stack) && i < |stack| && j < |stack|
    requires Num(indices, stack[i]) <= Num(indices, stack[j])
    ensures i <= j
  {
  }

  /** On a valid stack, each node occurs once. */
  lemma StackDistinct(indices: map<nat, nat>, onStack: map<nat, bool>, stack: seq<nat>, i: nat)
    requires StackShape(indices, onStack, stack) && i < |stack|
    ensures forall j :: 0 <= j < |stack| && j != i ==> stack[j] != stack[i]
  {
    forall j | 0 <= j < |stack| && j != i
      ensures stack[j] != stack[i]
    {
      if j < i {
        assert Num(indices, stack[j]) < Num(indices, stack[i]);
      } else {
        assert Num(indices, stack[i]) < Num(indices, stack[j]);
      }
    }
  }

  /** A node that is on the later stack and was visited before was on the earlier stack. */
  lemma StackOld(s0: TState, s: TState, x: nat)
    requires Grows(s0, s) && x in s.stack && x in s0.indices
    ensures x in s0.stack
  {
    var p := Position(s.stack, x);
    assert p < |s0.stack|;
    assert s0.stack[p] == x;
  }

  lemma StackKept(s0: TState, s: TState, x: nat)
    requires Grows(s0, s) && x in s0.stack
    ensures x in s.stack
  {
    var p := Position(s0.stack, x);
    assert s.stack[p] == x;
  }

  /** A node numbered no lower than the innermost active call `v` is not an earlier active call. */
  lemma GrayBelow(indices: map<nat, nat>, gray: seq<nat>, v: nat, x: nat)
    requires forall k, l :: 0 <= k < l < |gray + [v]| ==> Num(indices, (gray + [v])[k]) < Num(indices, (gray + [v])[l])
    requires Num(indices, x) >= Num(indices, v) && x != v
    ensures x !in gray + [v]
  {
    var gv := gray + [v];
    forall k | 0 <= k < |gv| ensures gv[k] != x {
      if k < |gray| {
        assert Num(indices, gv[k]) < Num(indices, gv[|gray|]);
      }
    }
  }

  lemma GrowsTrans(a: TState, b: TState, c: TState)
    requires Grows(a, b) && Grows(b, c)
    ensures Grows(a, c)
  {
    assert c.stack[..|a.stack|] == c.stack[..|b.stack|][..|a.stack|];
    forall i | |a.stack| <= i < |c.stack|
      ensures c.stack[i] !in a.indices
    {
      if i < |b.stack| {
        assert c.stack[i] == b.stack[i];
      }
    }
  }

  // ---------------------------------------------------------------------
  // Entering strongconnect(v)
  // ---------------------------------------------------------------------

  lemma PushNumbering(g: Graph, index: nat, indices: map<nat, nat>, v: nat)
    requires Numbering(g, index, indices) && v in Vertices(g) && v !in indices
    ensures Numbering(g, index + 1, indices[v := index])
  {
  }

  lemma PushShape(index: nat, indices: map<nat, nat>, onStack: map<nat, bool>, stack: seq<nat>, v: nat)
    requires StackShape(indices, onStack, stack) && v !in indices
    requires forall x :: x in indices ==> indices[x] < index
    ensures StackShape(indices[v := index], onStack[v := true], stack + [v])
  {
    var ind := indices[v := index];
    var t := stack + [v];
    assert forall x :: x in indices ==> Num(ind, x) == Num(indices, x);
    forall i, j | 0 <= i < j < |t|
      ensures Num(ind, t[i]) < Num(ind, t[j])
    {
      assert t[i] == stack[i];
      if j < |stack| {
        assert t[j] == stack[j];
      }
    }
  }

  lemma PushPartition(index: nat, indices: map<nat, nat>, stack: seq<nat>, sccs: seq<seq<nat>>, v: nat)
    requires Partition(indices, stack, sccs) && v !in indices
    ensures Partition(indices[v := index], stack + [v], sccs)
  {
  }

  lemma PushStackReach(g: Graph, indices: map<nat, nat>, stack: seq<nat>, gray: seq<nat>, v: nat)
    requires StackReach(g, stack)
    requires GrayPath(g, indices, gray) && ReachGray(g, indices, stack, gray)
    requires |gray| == 0 ==> |stack| == 0
    requires gray != [] ==> Edge(g, gray[|gray| - 1], v)
    ensures StackReach(g, stack + [v])
  {
    var t := stack + [v];
    forall i, j | 0 <= i <= j < |t|
      ensures Reach(g, t[i], t[j])
    {
      if j < |stack| {
        assert t[i] == stack[i] && t[j] == stack[j];
      } else if i == j {
        ReachRefl(g, v);
      } else {
        assert t[i] == stack[i] && t[j] == v;
        assert ReachesGray(g, indices, stack[i], gray);
        var k :| 0 <= k < |gray| && Num(indices, gray[k]) <= Num(indices, stack[i]) && Reach(g, stack[i], gray[k]);
        var last := gray[|gray| - 1];
        assert Reach(g, gray[k], last);
        ReachTrans(g, stack[i], gray[k], last);
        ReachStep(g, stack[i], last, v);
      }
    }
  }

  lemma PushGray(g: Graph, index: nat, indices: map<nat, nat>, gray: seq<nat>, v: nat)
    requires GrayPath(g, indices, gray) && v !in indices
    requires forall x :: x in indices ==> indices[x] < index
    requires gray != [] ==> Edge(g, gray[|gray| - 1], v)
    ensures GrayPath(g, indices[v := index], gray + [v])
  {
    var ind := indices[v := index];
    var gv := gray + [v];
    forall k, l | 0 <= k < l < |gv|
      ensures Num(ind, gv[k]) < Num(ind, gv[l])
    {
      assert gv[k] == gray[k] && gray[k] in indices;
      if l < |gray| {
        assert gv[l] == gray[l] && Num(indices, gray[k]) < Num(indices, gray[l]);
      }
    }
    forall k | 0 <= k < |gv| ensures gv[k] in ind {
      if k < |gray| {
        assert gv[k] == gray[k];
      }
    }
    forall k, l | 0 <= k <= l < |gv| ensures Reach(g, gv[k], gv[l]) {
      if l < |gray| {
        assert gv[k] == gray[k] && gv[l] == gray[l];
      } else if k == l {
        ReachRefl(g, v);
      } else {
        assert gv[k] == gray[k] && gv[l] == v;
        assert Reach(g, gray[k], gray[|gray| - 1]);
        ReachStep(g, gray[k], gray[|gray| - 1], v);
      }
    }
  }

  lemma PushReachGray(g: Graph, index: nat, indices: map<nat, nat>, stack: seq<nat>, gray: seq<nat>, v: nat)
    requires ReachGray(g, indices, stack, gray) && GrayPath(g, indices, gray) && v !in indices
    requires forall x :: x in stack ==> x in indices
    ensures ReachGray(g, indices[v := index], stack + [v], gray + [v])
  {
    var ind := indices[v := index];
    var t := stack + [v];
    var gv := gray + [v];
    forall i | 0 <= i < |t|
      ensures ReachesGray(g, ind, t[i], gv)
    {
      if i < |stack| {
        assert t[i] == stack[i];
        assert ReachesGray(g, indices, stack[i], gray);
        var k :| 0 <= k < |gray| && Num(indices, gray[k]) <= Num(indices, stack[i]) && Reach(g, stack[i], gray[k]);
        assert gv[k] == gray[k] && gray[k] in indices && stack[i] in indices;
        assert Num(ind, gv[k]) <= Num(ind, t[i]) && Reach(g, t[i], gv[k]);
      } else {
        ReachRefl(g, v);
        assert gv[|gray|] == v && t[i] == v;
      }
    }
  }

  lemma PushBlack(g: Graph, index: nat, indices: map<nat, nat>, gray: seq<nat>, v: nat)
    requires BlackClosed(g, indices, gray)
    ensures BlackClosed(g, indices[v := index], gray + [v])
  {
  }

  lemma PushPreserves(g: Graph, s0: TState, low0: map<nat, nat>, s: TState, low: map<nat, nat>, v: nat, gray: seq<nat>)
    requires Inv(g, s0, gray) && (forall x :: x in low0 ==> x in s0.indices)
    requires v in Vertices(g) && v !in s0.indices
    requires |gray| == 0 ==> |s0.stack| == 0
    requires gray != [] ==> Edge(g, gray[|gray| - 1], v)
    requires s == TState(s0.index + 1, s0.stack + [v], s0.indices[v := s0.index], s0.onStack[v := true], s0.sccs)
    requires low == low0[v := s0.index]
    ensures Inv(g, s, gray + [v])
    ensures LoopExtra(g, s0, low0, s, low, v, Succ(g, v))
  {
    PushNumbering(g, s0.index, s0.indices, v);
    PushShape(s0.index, s0.indices, s0.onStack, s0.stack, v);
    PushPartition(s0.index, s0.indices, s0.stack, s0.sccs, v);
    PushStackReach(g, s0.indices, s0.stack, gray, v);
    PushGray(g, s0.index, s0.indices, gray, v);
    PushReachGray(g, s0.index, s0.indices, s0.stack, gray, v);
    PushBlack(g, s0.index, s0.indices, gray, v);
    PushExtra(g, s0, low0, s, low, v);
  }

  lemma PushExtra(g: Graph, s0: TState, low0: map<nat, nat>, s: TState, low: map<nat, nat>, v: nat)
    requires v !in s0.indices && (forall x :: x in low0 ==> x in s0.indices)
    requires forall x :: x in s0.indices ==> s0.indices[x] < s0.index
    requires s == TState(s0.index + 1, s0.stack + [v], s0.indices[v := s0.index], s0.onStack[v := true], s0.sccs)
    requires low == low0[v := s0.index]
    requires StackShape(s.indices, s.onStack, s.stack)
    ensures LoopExtra(g, s0, low0, s, low, v, Succ(g, v))
  {
    assert Grows(s0, s) by {
      assert s.stack[..|s0.stack|] == s0.stack;
    }
    ReachRefl(g, v);
    assert s.stack[|s0.stack|] == v;
    assert Num(s.indices, v) == low[v];
    forall x | x in s.stack && Num(s.indices, x) >= s.indices[v] ensures x == v {
      var p := Position(s.stack, x);
      StackOrder(s.indices, s.onStack, s.stack, |s0.stack|, p);
    }
  }

  // ---------------------------------------------------------------------
  // One step of the successor loop
  // ---------------------------------------------------------------------

  /** After the recursive call `strongconnect(w)` on an unvisited successor `w` and the lowlink update. */
  lemma ChildStep(g: Graph, s0: TState, low0: map<nat, nat>, sPre: TState, lowPre: map<nat, nat>, s: TState,
                  low1: map<nat, nat>, low: map<nat, nat>, v: nat, w: nat, gray: seq<nat>, todo: set<nat>)
    requires LoopExtra(g, s0, low0, sPre, lowPre, v, todo)
    requires sPre.indices[v] < sPre.index && GrayPath(g, sPre.indices, gray + [v])
    requires BlackClosed(g, sPre.indices, gray + [v])
    requires w in todo && w !in sPre.indices
    requires Grows(sPre, s) && LowKept(lowPre, low1) && (forall x :: x in low1 ==> x in s.indices)
    requires w in s.indices && s.indices[w] == sPre.index && w in low1
    requires w in s.stack ==>
      low1[w] < s.indices[w] && exists y {:trigger Reach(g, w, y)} :: y in s.stack && Num(s.indices, y) == low1[w] && Reach(g, w, y)
    requires w !in s.stack ==> |s.stack| == |sPre.stack| && low1[w] >= s.indices[w]
    requires LowBound(g, s, low1, w, {})
    requires forall x :: x in s.stack ==> x in s.indices
    requires forall x :: x in sPre.stack ==> x in sPre.indices
    requires low == low1[v := Min(low1[v], low1[w])]
    ensures LoopExtra(g, s0, low0, s, low, v, todo - {w})
  {
    assert sPre.indices[v] < sPre.index;
    assert low1[v] == lowPre[v];
    GrowsTrans(s0, sPre, s);
    ChildWitness(g, sPre, lowPre, s, low1, low, v, w);
    ChildBound(g, sPre, lowPre, s, low1, low, v, w, gray, todo);
  }

  /** The lowlink of `v` stays the number of a stack node that `v` reaches. */
  lemma ChildWitness(g: Graph, sPre: TState, lowPre: map<nat, nat>, s: TState, low1: map<nat, nat>, low: map<nat, nat>,
                     v: nat, w: nat)
    requires Edge(g, v, w) && Grows(sPre, s) && forall x :: x in sPre.stack ==> x in sPre.indices
    requires v in sPre.indices && v in lowPre && lowPre[v] <= sPre.indices[v] && sPre.indices[v] < sPre.index
    requires exists y {:trigger Reach(g, v, y)} :: y in sPre.stack && Num(sPre.indices, y) == lowPre[v] && Reach(g, v, y)
    requires w in s.indices && s.indices[w] == sPre.index && w in low1 && v in low1 && low1[v] == lowPre[v]
    requires w in s.stack ==>
      low1[w] < s.indices[w] && exists y {:trigger Reach(g, w, y)} :: y in s.stack && Num(s.indices, y) == low1[w] && Reach(g, w, y)
    requires w !in s.stack ==> low1[w] >= s.indices[w]
    requires low == low1[v := Min(low1[v], low1[w])]
    ensures exists y {:trigger Reach(g, v, y)} :: y in s.stack && Num(s.indices, y) == low[v] && Reach(g, v, y)
  {
    if low1[w] < low1[v] {
      var y :| y in s.stack && Num(s.indices, y) == low1[w] && Reach(g, w, y);
      ReachEdge(g, v, w);
      ReachTrans(g, v, w, y);
      assert y in s.stack && Num(s.indices, y) == low[v] && Reach(g, v, y);
    } else {
      var y :| y in sPre.stack && Num(sPre.indices, y) == lowPre[v] && Reach(g, v, y);
      StackKept(sPre, s, y);
      assert y in s.stack && Num(s.indices, y) == low[v];
    }
  }

  /** The lowlink bound of `v` after taking the lowlink of its child `w` into account. */
  lemma ChildBound(g: Graph, sPre: TState, lowPre: map<nat, nat>, s: TState, low1: map<nat, nat>, low: map<nat, nat>,
                   v: nat, w: nat, gray: seq<nat>, todo: set<nat>)
    requires v in sPre.indices && v in lowPre && LowBound(g, sPre, lowPre, v, todo)
    requires sPre.indices[v] < sPre.index && w in todo && w !in sPre.indices
    requires forall y :: y in Succ(g, v) && y !in todo ==> y in sPre.indices
    requires forall x :: x in s.stack ==> x in s.indices
    requires GrayPath(g, sPre.indices, gray + [v]) && BlackClosed(g, sPre.indices, gray + [v])
    requires Grows(sPre, s)
    requires w in s.indices && s.indices[w] == sPre.index && w in low1 && v in low1 && low1[v] == lowPre[v]
    requires w in s.stack ==> low1[w] < s.indices[w]
    requires LowBound(g, s, low1, w, {})
    requires low == low1[v := Min(low1[v], low1[w])]
    ensures LowBound(g, s, low, v, todo - {w})
  {
    forall x, y | x in s.stack && Num(s.indices, x) >= s.indices[v] && y in Succ(g, x) && y in s.stack
                  && (x != v || y !in todo - {w})
      ensures low[v] <= Num(s.indices, y)
    {
      if Num(s.indices, x) >= s.indices[w] {
        assert low1[w] <= Num(s.indices, y);
      } else {
        assert x in sPre.indices;
        StackOld(sPre, s, x);
        if x == v && y == w {
        } else {
          if x != v {
            GrayBelow(sPre.indices, gray, v, x);
          }
          assert y in sPre.indices;
          StackOld(sPre, s, y);
          assert Num(sPre.indices, x) == Num(s.indices, x) && Num(sPre.indices, y) == Num(s.indices, y);
          assert x != v || y !in todo;
          assert lowPre[v] <= Num(sPre.indices, y);
        }
      }
    }
  }

  /** A successor already on the stack lowers the lowlink to its number. */
  lemma OnStackStep(g: Graph, s0: TState, low0: map<nat, nat>, s: TState, lowPre: map<nat, nat>, low: map<nat, nat>,
                    v: nat, w: nat, todo: set<nat>)
    requires LoopExtra(g, s0, low0, s, lowPre, v, todo)
    requires StackShape(s.indices, s.onStack, s.stack)
    requires w in todo && w in s.indices && s.onStack[w]
    requires low == lowPre[v := Min(lowPre[v], s.indices[w])]
    ensures LoopExtra(g, s0, low0, s, low, v, todo - {w})
  {
    if s.indices[w] < lowPre[v] {
      ReachEdge(g, v, w);
      assert w in s.stack && Num(s.indices, w) == low[v] && Reach(g, v, w);
    } else {
      var y :| y in s.stack && Num(s.indices, y) == lowPre[v] && Reach(g, v, y);
      assert Num(s.indices, y) == low[v];
    }
    assert LowBound(g, s, low, v, todo - {w}) by {
      forall x, y | x in s.stack && Num(s.indices, x) >= s.indices[v] && y in Succ(g, x) && y in s.stack
                    && (x != v || y !in todo - {w})
        ensures low[v] <= Num(s.indices, y)
      {
        if x != v || y != w {
          assert lowPre[v] <= Num(s.indices, y);
        }
      }
    }
  }

  /** A successor that is visited and no longer on the stack changes nothing. */
  lemma VisitedStep(g: Graph, s0: TState, low0: map<nat, nat>, s: TState, low: map<nat, nat>, v: nat, w: nat,
                    todo: set<nat>)
    requires LoopExtra(g, s0, low0, s, low, v, todo)
    requires StackShape(s.indices, s.onStack, s.stack)
    requires w in todo && w in s.indices && !s.onStack[w]
    ensures LoopExtra(g, s0, low0, s, low, v, todo - {w})
  {
    assert w !in s.stack;
  }

  // ---------------------------------------------------------------------
  // Leaving strongconnect(v)
  // ---------------------------------------------------------------------

  /** `v` finishes without being a root: it stays on the stack and stops being active. */
  lemma FinishPreserves(g: Graph, s0: TState, low0: map<nat, nat>, s: TState, low: map<nat, nat>, v: nat,
                        gray: seq<nat>)
    requires Inv(g, s, gray + [v])
    requires LoopExtra(g, s0, low0, s, low, v, {})
    requires low[v] != s.indices[v]
    ensures Connected(g, s0, low0, s, low, v, gray)
  {
    FinishGray(g, s.indices, s.stack, gray, v, low[v]);
    PopBlack(g, s.indices, gray, v);
    assert v in s.stack by {
      assert s.stack[|s0.stack|] == v;
    }
  }

  /** A non-root `v` reaches a node below it on the stack, hence an earlier active node. */
  lemma FinishGray(g: Graph, indices: map<nat, nat>, stack: seq<nat>, gray: seq<nat>, v: nat, low: nat)
    requires GrayPath(g, indices, gray + [v]) && ReachGray(g, indices, stack, gray + [v])
    requires v in indices && low < indices[v]
    requires exists y {:trigger Reach(g, v, y)} :: y in stack && Num(indices, y) == low && Reach(g, v, y)
    ensures GrayPath(g, indices, gray) && ReachGray(g, indices, stack, gray)
  {
    var gv := gray + [v];
    var y :| y in stack && Num(indices, y) == low && Reach(g, v, y);
    var py := Position(stack, y);
    assert ReachesGray(g, indices, stack[py], gv);
    var ky :| 0 <= ky < |gv| && Num(indices, gv[ky]) <= Num(indices, stack[py]) && Reach(g, stack[py], gv[ky]);
    assert ky < |gray|;
    assert gv[ky] == gray[ky];
    ReachTrans(g, v, y, gray[ky]);
    GrayPrefix(g, indices, gray, v);
    forall i | 0 <= i < |stack|
      ensures ReachesGray(g, indices, stack[i], gray)
    {
      assert ReachesGray(g, indices, stack[i], gv);
      var k :| 0 <= k < |gv| && Num(indices, gv[k]) <= Num(indices, stack[i]) && Reach(g, stack[i], gv[k]);
      if k < |gray| {
        assert gv[k] == gray[k];
      } else {
        assert gv[k] == v;
        ReachTrans(g, stack[i], v, gray[ky]);
        assert Num(indices, gray[ky]) <= Num(indices, stack[i]);
      }
    }
  }

  /** The popped nodes are exactly those from position `n` up. */
  lemma PoppedMembers(stackF: seq<nat>, n: nat, scc: seq<nat>)
    requires n <= |stackF|
    requires |scc| == |stackF| - n && forall t :: 0 <= t < |scc| ==> scc[t] == stackF[|stackF| - 1 - t]
    ensures forall x :: x in scc <==> exists p :: n <= p < |stackF| && stackF[p] == x
  {
    forall x
      ensures x in scc <==> exists p :: n <= p < |stackF| && stackF[p] == x
    {
      if x in scc {
        var t := Position(scc, x);
        assert stackF[|stackF| - 1 - t] == x;
      }
      if exists p :: n <= p < |stackF| && stackF[p] == x {
        var p :| n <= p < |stackF| && stackF[p] == x;
        assert scc[|stackF| - 1 - p] == x;
      }
    }
  }

  lemma PopPartition(indices: map<nat, nat>, onStack: map<nat, bool>, stackF: seq<nat>, sccs: seq<seq<nat>>,
                     n: nat, scc: seq<nat>)
    requires StackShape(indices, onStack, stackF) && Partition(indices, stackF, sccs)
    requires n < |stackF|
    requires |scc| == |stackF| - n && forall t :: 0 <= t < |scc| ==> scc[t] == stackF[|stackF| - 1 - t]
    ensures Partition(indices, stackF[..n], sccs + [scc])
  {
    PoppedMembers(stackF, n, scc);
    var st := stackF[..n];
    var cs := sccs + [scc];
    forall x ensures x in indices <==> x in st || InScc(cs, x) {
      if InScc(cs, x) {
        var i :| 0 <= i < |cs| && x in cs[i];
        if i < |sccs| {
          assert x in sccs[i];
        } else {
          assert x in scc;
        }
      }
      if x in stackF {
        var p := Position(stackF, x);
        if p < n {
          assert st[p] == x;
        } else {
          assert x in scc;
          assert x in cs[|sccs|];
        }
      }
      if InScc(sccs, x) {
        var i :| 0 <= i < |sccs| && x in sccs[i];
        assert x in cs[i];
      }
      if x in st {
        var p := Position(st, x);
        assert stackF[p] == x;
      }
    }
    forall x | x in st ensures !InScc(cs, x) {
      var p := Position(st, x);
      assert stackF[p] == x;
      StackDistinct(indices, onStack, stackF, p);
      assert x !in scc;
      forall i | 0 <= i < |cs| ensures x !in cs[i] {
        if i < |sccs| {
          assert cs[i] == sccs[i];
        } else {
          assert cs[i] == scc;
        }
      }
    }
    forall x | x in scc ensures !InScc(sccs, x) {
      var q :| n <= q < |stackF| && stackF[q] == x;
      assert x in stackF;
    }
    forall i, j, x | 0 <= i < |cs| && 0 <= j < |cs| && x in cs[i] && x in cs[j]
      ensures i == j
    {
      if i < |sccs| && j < |sccs| {
        assert x in sccs[i] && x in sccs[j];
      }
    }
    assert NoDup(scc) by {
      forall a, b | 0 <= a < b < |scc| ensures scc[a] != scc[b] {
        StackDistinct(indices, onStack, stackF, |stackF| - 1 - a);
      }
    }
    forall i | 0 <= i < |cs| ensures cs[i] != [] && NoDup(cs[i]) {
      if i < |sccs| {
        assert cs[i] == sccs[i];
      }
    }
  }

  lemma PopShape(indices: map<nat, nat>, onStackF: map<nat, bool>, stackF: seq<nat>, onStack: map<nat, bool>, n: nat)
    requires StackShape(indices, onStackF, stackF) && n <= |stackF|
    requires onStack.Keys == onStackF.Keys && forall x :: x in onStack ==> (onStack[x] <==> x in stackF[..n])
    ensures StackShape(indices, onStack, stackF[..n])
  {
    var st := stackF[..n];
    forall i, j | 0 <= i < j < |st| ensures Num(indices, st[i]) < Num(indices, st[j]) {
      assert st[i] == stackF[i] && st[j] == stackF[j];
    }
    forall x | x in st ensures x in indices {
      var p := Position(st, x);
      assert stackF[p] == x;
    }
  }

  lemma PopStackReach(g: Graph, stackF: seq<nat>, n: nat)
    requires StackReach(g, stackF) && n <= |stackF|
    ensures StackReach(g, stackF[..n])
  {
    var st := stackF[..n];
    forall i, j | 0 <= i <= j < |st| ensures Reach(g, st[i], st[j]) {
      assert st[i] == stackF[i] && st[j] == stackF[j];
    }
  }

  /** Dropping the last active call keeps the chain of active calls. */
  lemma GrayPrefix(g: Graph, indices: map<nat, nat>, gray: seq<nat>, v: nat)
    requires GrayPath(g, indices, gray + [v])
    ensures GrayPath(g, indices, gray)
  {
    var gv := gray + [v];
    forall k, l | 0 <= k < l < |gray| ensures Num(indices, gray[k]) < Num(indices, gray[l]) {
      assert gray[k] == gv[k] && gray[l] == gv[l];
    }
    forall k, l | 0 <= k <= l < |gray| ensures Reach(g, gray[k], gray[l]) {
      assert gray[k] == gv[k] && gray[l] == gv[l];
    }
    forall k | 0 <= k < |gray| ensures gray[k] in indices {
      assert gray[k] == gv[k];
    }
  }

  lemma PopReachGray(g: Graph, indices: map<nat, nat>, onStack: map<nat, bool>, stackF: seq<nat>, n: nat,
                     gray: seq<nat>, v: nat)
    requires ReachGray(g, indices, stackF, gray + [v]) && StackShape(indices, onStack, stackF)
    requires n < |stackF| && stackF[n] == v
    ensures ReachGray(g, indices, stackF[..n], gray)
  {
    var st := stackF[..n];
    var gv := gray + [v];
    forall i | 0 <= i < |st|
      ensures ReachesGray(g, indices, st[i], gray)
    {
      assert st[i] == stackF[i];
      assert ReachesGray(g, indices, stackF[i], gv);
      var k :| 0 <= k < |gv| && Num(indices, gv[k]) <= Num(indices, stackF[i]) && Reach(g, stackF[i], gv[k]);
      assert Num(indices, stackF[i]) < Num(indices, stackF[n]);
      assert k < |gray|;
      assert gv[k] == gray[k];
    }
  }

  lemma PopBlack(g: Graph, indices: map<nat, nat>, gray: seq<nat>, v: nat)
    requires BlackClosed(g, indices, gray + [v]) && Succ(g, v) <= indices.Keys
    ensures BlackClosed(g, indices, gray)
  {
    forall x | x in indices && x !in gray ensures Succ(g, x) <= indices.Keys {
      if x != v {
        assert x !in gray + [v];
      }
    }
  }

  /** Every node popped with the root `v` leads only into the new component or an earlier one. */
  lemma PopEmitClosed(g: Graph, indices: map<nat, nat>, onStack: map<nat, bool>, stackF: seq<nat>,
                      sccs: seq<seq<nat>>, gray: seq<nat>, v: nat, low: nat, n: nat, scc: seq<nat>)
    requires StackShape(indices, onStack, stackF) && Partition(indices, stackF, sccs) && EmitClosed(g, sccs)
    requires BlackClosed(g, indices, gray + [v]) && GrayPath(g, indices, gray + [v])
    requires n < |stackF| && stackF[n] == v
    requires Succ(g, v) <= indices.Keys
    requires low == Num(indices, v)
    requires forall x, y :: x in stackF && Num(indices, x) >= Num(indices, v) && y in Succ(g, x) && y in stackF ==>
      low <= Num(indices, y)
    requires |scc| == |stackF| - n && forall t :: 0 <= t < |scc| ==> scc[t] == stackF[|stackF| - 1 - t]
    ensures EmitClosed(g, sccs + [scc])
  {
    PoppedMembers(stackF, n, scc);
    var cs := sccs + [scc];
    forall i, x, y | 0 <= i < |cs| && x in cs[i] && y in Succ(g, x)
      ensures exists j :: 0 <= j <= i && y in cs[j]
    {
      if i < |sccs| {
        assert x in sccs[i];
        var j :| 0 <= j <= i && y in sccs[j];
        assert y in cs[j];
      } else {
        assert x in scc;
        var p :| n <= p < |stackF| && stackF[p] == x;
        PoppedSucc(g, indices, onStack, stackF, sccs, gray, v, low, n, p, y);
        if y in stackF {
          assert y in scc;
          assert y in cs[i];
        } else {
          var j :| 0 <= j < |sccs| && y in sccs[j];
          assert y in cs[j];
        }
      }
    }
  }

  /** A successor of a popped node is popped as well, or in an earlier component. */
  lemma PoppedSucc(g: Graph, indices: map<nat, nat>, onStack: map<nat, bool>, stackF: seq<nat>,
                   sccs: seq<seq<nat>>, gray: seq<nat>, v: nat, low: nat, n: nat, p: nat, y: nat)
    requires StackShape(indices, onStack, stackF) && Partition(indices, stackF, sccs)
    requires BlackClosed(g, indices, gray + [v]) && GrayPath(g, indices, gray + [v])
    requires n <= p < |stackF| && stackF[n] == v && y in Succ(g, stackF[p])
    requires Succ(g, v) <= indices.Keys
    requires low == Num(indices, v)
    requires forall x, y :: x in stackF && Num(indices, x) >= Num(indices, v) && y in Succ(g, x) && y in stackF ==>
      low <= Num(indices, y)
    ensures y in stackF ==> exists q :: n <= q < |stackF| && stackF[q] == y
    ensures y !in stackF ==> InScc(sccs, y)
  {
    var x := stackF[p];
    assert Num(indices, x) >= Num(indices, v) by {
      if p > n {
        assert Num(indices, stackF[n]) < Num(indices, stackF[p]);
      }
    }
    if x != v {
      GrayBelow(indices, gray, v, x);
    }
    assert y in indices;
    if y in stackF {
      var q := Position(stackF, y);
      StackOrder(indices, onStack, stackF, n, q);
    }
  }

  /** The popped nodes are strongly connected, through `v`. */
  lemma PopEmitConnected(g: Graph, indices: map<nat, nat>, onStack: map<nat, bool>, stackF: seq<nat>,
                         sccs: seq<seq<nat>>, gray: seq<nat>, v: nat, n: nat, scc: seq<nat>)
    requires StackShape(indices, onStack, stackF) && StackReach(g, stackF) && EmitConnected(g, sccs)
    requires ReachGray(g, indices, stackF, gray + [v]) && GrayPath(g, indices, gray + [v])
    requires n < |stackF| && stackF[n] == v
    requires |scc| == |stackF| - n && forall t :: 0 <= t < |scc| ==> scc[t] == stackF[|stackF| - 1 - t]
    ensures EmitConnected(g, sccs + [scc])
  {
    PoppedMembers(stackF, n, scc);
    var gv := gray + [v];
    assert forall x :: x in scc ==> Reach(g, x, v) && Reach(g, v, x) by {
      forall x | x in scc ensures Reach(g, x, v) && Reach(g, v, x) {
        var p :| n <= p < |stackF| && stackF[p] == x;
        assert Reach(g, stackF[n], stackF[p]);
        assert ReachesGray(g, indices, stackF[p], gv);
        var k :| 0 <= k < |gv| && Num(indices, gv[k]) <= Num(indices, stackF[p]) && Reach(g, stackF[p], gv[k]);
        if k < |gray| {
          assert gv[k] == gray[k] && gv[|gray|] == v;
          assert Reach(g, gv[k], gv[|gray|]);
          ReachTrans(g, x, gray[k], v);
        } else {
          assert gv[k] == v;
        }
      }
    }
    var cs := sccs + [scc];
    forall i, x, y | 0 <= i < |cs| && x in cs[i] && y in cs[i]
      ensures Reach(g, x, y)
    {
      if i < |sccs| {
        assert x in sccs[i] && y in sccs[i];
      } else {
        assert x in scc && y in scc;
        ReachTrans(g, x, v, y);
      }
    }
  }

  /** `v` is a root: the popped nodes form a component and the invariant holds without `v` active. */
  lemma PopPreserves(g: Graph, s0: TState, sF: TState, s: TState, low: map<nat, nat>, v: nat, gray: seq<nat>,
                     scc: seq<nat>)
    requires Numbering(g, sF.index, sF.indices)
    requires StackShape(sF.indices, sF.onStack, sF.stack) && Partition(sF.indices, sF.stack, sF.sccs)
    requires StackReach(g, sF.stack) && GrayPath(g, sF.indices, gray + [v])
    requires ReachGray(g, sF.indices, sF.stack, gray + [v]) && BlackClosed(g, sF.indices, gray + [v])
    requires EmitClosed(g, sF.sccs) && EmitConnected(g, sF.sccs)
    requires Grows(s0, sF)
    requires v in sF.indices && v in low && low[v] == sF.indices[v]
    requires Succ(g, v) <= sF.indices.Keys && LowBound(g, sF, low, v, {})
    requires |s0.stack| < |sF.stack| && sF.stack[|s0.stack|] == v
    requires |scc| == |sF.stack| - |s0.stack|
    requires forall t :: 0 <= t < |scc| ==> scc[t] == sF.stack[|sF.stack| - 1 - t]
    requires s.stack == sF.stack[..|s0.stack|]
    requires s == sF.(stack := s.stack, onStack := s.onStack, sccs := sF.sccs + [scc])
    requires s.onStack.Keys == sF.onStack.Keys && forall x :: x in s.onStack ==> (s.onStack[x] <==> x in s.stack)
    ensures Inv(g, s, gray)
    ensures Grows(s0, s)
    ensures s.stack == s0.stack
  {
    PopLower(g, s0, sF, s, v, gray, scc);
    PopUpper(g, s0, sF, s, low, v, gray, scc);
  }

  /** The stack part of the invariant after popping the component of `v`. */
  lemma PopLower(g: Graph, s0: TState, sF: TState, s: TState, v: nat, gray: seq<nat>, scc: seq<nat>)
    requires StackShape(sF.indices, sF.onStack, sF.stack) && Partition(sF.indices, sF.stack, sF.sccs)
    requires StackReach(g, sF.stack) && Grows(s0, sF)
    requires |s0.stack| < |sF.stack| && sF.stack[|s0.stack|] == v
    requires |scc| == |sF.stack| - |s0.stack|
    requires forall t :: 0 <= t < |scc| ==> scc[t] == sF.stack[|sF.stack| - 1 - t]
    requires s.stack == sF.stack[..|s0.stack|]
    requires s == sF.(stack := s.stack, onStack := s.onStack, sccs := sF.sccs + [scc])
    requires s.onStack.Keys == sF.onStack.Keys && forall x :: x in s.onStack ==> (s.onStack[x] <==> x in s.stack)
    ensures StackShape(s.indices, s.onStack, s.stack) && Partition(s.indices, s.stack, s.sccs)
    ensures StackReach(g, s.stack) && Grows(s0, s) && s.stack == s0.stack
  {
    var n := |s0.stack|;
    PopShape(sF.indices, sF.onStack, sF.stack, s.onStack, n);
    PopPartition(sF.indices, sF.onStack, sF.stack, sF.sccs, n, scc);
    PopStackReach(g, sF.stack, n);
    PopGrows(s0, sF, s, scc);
  }

  /** The active-call and component part of the invariant after popping the component of `v`. */
  lemma PopUpper(g: Graph, s0: TState, sF: TState, s: TState, low: map<nat, nat>, v: nat, gray: seq<nat>,
                 scc: seq<nat>)
    requires StackShape(sF.indices, sF.onStack, sF.stack) && Partition(sF.indices, sF.stack, sF.sccs)
    requires StackReach(g, sF.stack) && GrayPath(g, sF.indices, gray + [v])
    requires ReachGray(g, sF.indices, sF.stack, gray + [v]) && BlackClosed(g, sF.indices, gray + [v])
    requires EmitClosed(g, sF.sccs) && EmitConnected(g, sF.sccs)
    requires v in sF.indices && v in low && low[v] == sF.indices[v]
    requires Succ(g, v) <= sF.indices.Keys && LowBound(g, sF, low, v, {})
    requires |s0.stack| < |sF.stack| && sF.stack[|s0.stack|] == v
    requires |scc| == |sF.stack| - |s0.stack|
    requires forall t :: 0 <= t < |scc| ==> scc[t] == sF.stack[|sF.stack| - 1 - t]
    requires s.stack == sF.stack[..|s0.stack|]
    requires s == sF.(stack := s.stack, onStack := s.onStack, sccs := sF.sccs + [scc])
    ensures GrayPath(g, s.indices, gray) && ReachGray(g, s.indices, s.stack, gray) && BlackClosed(g, s.indices, gray)
    ensures EmitClosed(g, s.sccs) && EmitConnected(g, s.sccs)
  {
    var n := |s0.stack|;
    assert low[v] == Num(sF.indices, v);
    GrayPrefix(g, sF.indices, gray, v);
    PopReachGray(g, sF.indices, sF.onStack, sF.stack, n, gray, v);
    PopBlack(g, sF.indices, gray, v);
    PopEmitClosed(g, sF.indices, sF.onStack, sF.stack, sF.sccs, gray, v, low[v], n, scc);
    PopEmitConnected(g, sF.indices, sF.onStack, sF.stack, sF.sccs, gray, v, n, scc);
  }

  /** After the pop, `v` is off the stack and the stack is what the caller left. */
  lemma PopConnected(g: Graph, s0: TState, low0: map<nat, nat>, s: TState, low: map<nat, nat>, v: nat, gray: seq<nat>)
    requires Inv(g, s, gray) && Grows(s0, s) && s.stack == s0.stack
    requires LowKept(low0, low) && (forall x :: x in low ==> x in s.indices)
    requires Numbering(g, s0.index, s0.indices) && forall x :: x in s0.stack ==> x in s0.indices
    requires v !in s0.indices && v in s.indices && s.indices[v] == s0.index
    requires v in low && low[v] == s.indices[v]
    ensures Connected(g, s0, low0, s, low, v, gray)
  {
    forall x | x in s.stack ensures Num(s.indices, x) < s.indices[v] {
      assert x in s0.indices;
    }
  }

  lemma PopGrows(s0: TState, sF: TState, s: TState, scc: seq<nat>)
    requires Grows(s0, sF)
    requires s.stack == sF.stack[..|s0.stack|]
    requires s == sF.(stack := s.stack, onStack := s.onStack, sccs := sF.sccs + [scc])
    ensures Grows(s0, s) && s.stack == s0.stack
  {
  }

  // ---------------------------------------------------------------------
  // _tarjan_scc
  // ---------------------------------------------------------------------

  /** No node lies in two components. */
  ghost predicate Disjoint(sccs: seq<seq<nat>>)
  {
    forall i, j, x {:trigger x in sccs[i], x in sccs[j]} :: 0 <= i < |sccs| && 0 <= j < |sccs| && x in sccs[i] && x in sccs[j] ==> i == j
  }

  /** What `_tarjan_scc` returns: the nodes that have an edge, split into components emitted in reverse topological order. */
  ghost predicate Decomposition(g: Graph, sccs: seq<seq<nat>>)
  {
    && (forall x :: InScc(sccs, x) <==> x in Vertices(g))
    && Disjoint(sccs)
    && (forall i :: 0 <= i < |sccs| ==> |sccs[i]| > 0 && NoDup(sccs[i]))
    && EmitClosed(g, sccs)
    && EmitConnected(g, sccs)
  }

  /**
    `_tarjan_scc(graph)`: `strongconnect` from every key of `graph` not visited yet. `roots` lists the keys in
    the order the dictionary yields them.
   */
  method TarjanScc(g: Graph, roots: seq<nat>) returns (sccs: seq<seq<nat>>)
    requires forall x :: x in roots <==> x in g
    ensures Decomposition(g, sccs)
  {
    var s := TState(0, [], map[], map[], []);
    var low: map<nat, nat> := map[];
    for i := 0 to |roots|
      invariant Inv(g, s, []) && (forall x :: x in low ==> x in s.indices)
      invariant forall k :: 0 <= k < i ==> roots[k] in s.indices
    {
      if roots[i] !in s.indices {
        EmptyStack(g, s);
        s, low := StrongConnect(g, roots[i], s, low, []);
      }
    }
    sccs := s.sccs;
    Finished(g, s, roots);
  }

  /** With no active call, the stack is empty. */
  lemma EmptyStack(g: Graph, s: TState)
    requires ReachGray(g, s.indices, s.stack, [])
    ensures |s.stack| == 0
  {
    if |s.stack| > 0 {
      NoActiveCall(g, s.indices, s.stack[0]);
    }
  }

  lemma NoActiveCall(g: Graph, indices: map<nat, nat>, x: nat)
    ensures !ReachesGray(g, indices, x, [])
  {
  }

  /** When every key has been searched, the visited nodes are exactly the nodes with an edge. */
  lemma Finished(g: Graph, s: TState, roots: seq<nat>)
    requires Inv(g, s, [])
    requires forall x :: x in roots <==> x in g
    requires forall k :: 0 <= k < |roots| ==> roots[k] in s.indices
    ensures Decomposition(g, s.sccs)
  {
    EmptyStack(g, s);
    forall x ensures InScc(s.sccs, x) <==> x in Vertices(g) {
      if x in Vertices(g) {
        if x in g {
          var k := Position(roots, x);
        } else {
          var y :| y in g && x in g[y];
          var k := Position(roots, y);
          assert y in s.indices && y !in [];
          assert Succ(g, y) <= s.indices.Keys;
        }
        assert x in s.indices && x !in s.stack;
      }
      if InScc(s.sccs, x) {
        assert x in s.indices;
      }
    }
  }

  /** A path that starts in an emitted component ends in that component or an earlier one. */
  lemma {:induction false} PathBelow(g: Graph, sccs: seq<seq<nat>>, p: seq<nat>, i: nat)
    requires EmitClosed(g, sccs) && IsPath(g, p) && i < |sccs| && p[0] in sccs[i]
    ensures exists j :: 0 <= j <= i && p[|p| - 1] in sccs[j]
    decreases |p|
  {
    if |p| > 1 {
      assert Edge(g, p[0], p[1]);
      var j :| 0 <= j <= i && p[1] in sccs[j];
      var q := p[1..];
      forall a, b | 0 <= a < |q| - 1 && b == a + 1 ensures Edge(g, q[a], q[b]) {
        assert q[a] == p[a + 1] && q[b] == p[a + 2];
      }
      PathBelow(g, sccs, q, j);
      assert q[|q| - 1] == p[|p| - 1];
    }
  }

  lemma ReachBelow(g: Graph, sccs: seq<seq<nat>>, x: nat, y: nat, i: nat)
    requires EmitClosed(g, sccs) && Reach(g, x, y) && i < |sccs| && x in sccs[i]
    ensures exists j :: 0 <= j <= i && y in sccs[j]
  {
    var p :| IsPath(g, p) && p[0] == x && p[|p| - 1] == y;
    PathBelow(g, sccs, p, i);
  }

  /** Two nodes share a component exactly when each reaches the other. */
  lemma SameSccIffMutual(g: Graph, sccs: seq<seq<nat>>, i: nat, x: nat, y: nat)
    requires Decomposition(g, sccs) && i < |sccs| && x in sccs[i]
    ensures y in sccs[i] <==> Reach(g, x, y) && Reach(g, y, x)
  {
    if Reach(g, x, y) && Reach(g, y, x) {
      ReachBelow(g, sccs, x, y, i);
      var j :| 0 <= j <= i && y in sccs[j];
      ReachBelow(g, sccs, y, x, j);
      var k :| 0 <= k <= j && x in sccs[k];
      assert k == i;
    }
  }

  /** An edge between two components leads to one emitted earlier. */
  lemma EdgeOrder(g: Graph, sccs: seq<seq<nat>>, i: nat, j: nat, x: nat, y: nat)
    requires EmitClosed(g, sccs) && Disjoint(sccs) && i < |sccs| && j < |sccs| && x in sccs[i] && y in sccs[j]
    requires Edge(g, x, y)
    ensures j <= i
  {
    var k :| 0 <= k <= i && y in sccs[k];
  }

  /** `list(reversed(...))`. */
  function Reversed<T>(q: seq<T>): (r: seq<T>)
    ensures |r| == |q| && forall k :: 0 <= k < |q| ==> r[k] == q[|q| - 1 - k]
  {
    if q == [] then [] else Reversed(q[1..]) + [q[0]]
  }

  /** Every edge leads from a component to the same one or a later one: producers come first. */
  ghost predicate Topological(g: Graph, order: seq<seq<nat>>)
  {
    forall a, b, x, y {:trigger x in order[a], y in order[b], Edge(g, x, y)} ::
      0 <= a < |order| && 0 <= b < |order| && x in order[a] && y in order[b] && Edge(g, x, y) ==> a <= b
  }

  /** Reversing the emitted components puts them in topological order. */
  lemma ReversedOrder(g: Graph, sccs: seq<seq<nat>>)
    requires Decomposition(g, sccs)
    ensures Topological(g, Reversed(sccs))
  {
    var r := Reversed(sccs);
    forall a, b, x, y | 0 <= a < |r| && 0 <= b < |r| && x in r[a] && y in r[b] && Edge(g, x, y)
      ensures a <= b
    {
      assert x in sccs[|sccs| - 1 - a] && y in sccs[|sccs| - 1 - b];
      EdgeOrder(g, sccs, |sccs| - 1 - a, |sccs| - 1 - b, x, y);
    }
  }
}
