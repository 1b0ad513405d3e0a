/**
  What `propagate` does for one strongly connected component: the exact
  solve when the linearised system has full rank, otherwise relaxation,
  followed by rounding of every numeric node.
 */
module Solver {
  import opened Wrappers
  import opened Values
  import opened Order
  import opened Rounding
  import opened Linear
  import opened Relaxation

  /**
    `np.linalg.matrix_rank` and `np.linalg.lstsq`, supplied by the caller:
    `lstsq` yields `None` where numpy raises `LinAlgError`.
   */
  datatype LinAlg = LinAlg(rank: seq<seq<real>> -> nat, lstsq: (seq<seq<real>>, seq<real>) -> Option<seq<real>>)

  /** The loop over `var_index.items()`: each variable takes its rounded solution value. */
  method WriteSolution(nodes0: Nodes, vars: seq<string>, solution: seq<real>) returns (nodes: Nodes)
    requires StrictlySorted(vars) && |solution| == |vars|
    ensures forall k :: k in nodes <==> k in nodes0 || k in vars
    ensures forall p :: 0 <= p < |vars| ==> nodes[vars[p]] == Num(Round6(solution[p]))
    ensures forall k :: k in nodes0 && k !in vars ==> nodes[k] == nodes0[k]
  {
    nodes := nodes0;
    for p := 0 to |vars|
      invariant forall k :: k in nodes <==> k in nodes0 || k in vars[..p]
      invariant forall q :: 0 <= q < p ==> nodes[vars[q]] == Num(Round6(solution[q]))
      invariant forall k :: k in nodes0 && k !in vars[..p] ==> nodes[k] == nodes0[k]
    {
      forall q | 0 <= q < p ensures vars[q] != vars[p] {
        LessIrreflexive(vars[p]);
      }
      assert vars[..p + 1] == vars[..p] + [vars[p]];
      nodes := nodes[vars[p] := Num(Round6(solution[p]))];
    }
    assert vars[..|vars|] == vars;
  }

  /** The exact path's answer: a solution when the system has rows, full rank and a solution of the right size. */
  function Accept(la: LinAlg, sys: System, n: nat): (r: Option<seq<real>>)
    ensures r.Some? ==> |sys.rows| > 0 && la.rank(sys.rows) == n && la.lstsq(sys.rows, sys.consts) == r && |r.value| == n
    ensures r.None? ==> |sys.rows| == 0 || la.rank(sys.rows) != n || la.lstsq(sys.rows, sys.consts).None? ||
                        |la.lstsq(sys.rows, sys.consts).value| != n
  {
    if |sys.rows| == 0 || la.rank(sys.rows) != n then None
    else
      match la.lstsq(sys.rows, sys.consts)
      case None => None
      case Some(solution) => if |solution| == n then Some(solution) else None
  }

  /** Which way `propagate` dealt with one component. */
  datatype Route =
    | Exact              // the linear system was solved and its solution written
    | Raised             // linearising raised, and the exception escaped
    | Relaxed(exit: Exit) // the relaxation loop ran, and left as `exit` says

  /**
    One component. `vars` is the sorted list of variables. The exact path is
    taken exactly when there are variables, linearising raises nothing and
    the linear algebra accepts the system; then every variable holds its
    rounded solution value and nothing else changed. When linearising raises,
    nothing changed and the fault is that of the first constraint to raise. Otherwise the relaxation loop ran to its first exit
    and, unless a pass raised, every numeric node of the whole map was then
    rounded. Either way no node is removed and a node changes only if the
    component writes it or it was rounded.
   */
  method SolveScc(la: LinAlg, cs: seq<Constraint>, scc: seq<nat>, nodes0: Nodes)
    returns (nodes: Nodes, vars: seq<string>, route: Route, fault: Option<Fault>)
    requires ValidScc(cs, scc)
    ensures StrictlySorted(vars) && forall o :: o in vars <==> o in VariableSet(cs, scc, nodes0)
    ensures route.Raised? <==> |vars| > 0 && !SystemOk(cs, scc, nodes0, vars, |scc|)
    ensures route.Raised? ==> fault == SystemFault(cs, scc, nodes0, vars, 0) && fault.Some? && nodes == nodes0
    ensures route.Exact? <==>
      |vars| > 0 && SystemOk(cs, scc, nodes0, vars, |scc|) && Accept(la, SystemOf(cs, scc, nodes0, vars, |scc|), |vars|).Some?
    ensures route.Exact? ==>
      var sol := Accept(la, SystemOf(cs, scc, nodes0, vars, |scc|), |vars|).value;
      && fault.None?
      && nodes.Keys == nodes0.Keys
      && (forall p :: 0 <= p < |vars| ==> nodes[vars[p]] == Num(Round6(sol[p])))
      && (forall k :: k in nodes0 && k !in vars ==> nodes[k] == nodes0[k])
    ensures route.Relaxed? ==> route.exit == ExitFrom(cs, scc, nodes0, 0)
    ensures route.Relaxed? ==> Stopped(cs, scc, nodes0, route.exit.passes, route.exit.stop)
    ensures route.Relaxed? && route.exit.stop.Failed? ==>
      fault == Some(route.exit.stop.fault) && nodes == Iterate(cs, scc, nodes0, route.exit.passes)
    ensures route.Relaxed? && !route.exit.stop.Failed? ==>
      var relaxed := Iterate(cs, scc, nodes0, route.exit.passes);
      && fault.None?
      && nodes.Keys == relaxed.Keys
      && forall k :: k in relaxed ==> nodes[k] == RoundValue(relaxed[k])
    ensures !route.Exact? && fault.None? ==> AllRounded(nodes)
    ensures nodes0.Keys <= nodes.Keys
    ensures forall k :: k in nodes && (k !in nodes0 || nodes[k] != nodes0[k]) ==>
              OutputOf(cs, scc, k) || (k in nodes0 && nodes[k] == RoundValue(nodes0[k]))
  {
    vars := Sort(VariableSet(cs, scc, nodes0));
    if |vars| > 0 {
      var sys := BuildSystem(cs, scc, nodes0, vars);
      if sys.Err? {
        return nodes0, vars, Raised, Some(sys.error);
      }
      var sol := Accept(la, sys.value, |vars|);
      if sol.Some? {
        nodes := WriteSolution(nodes0, vars, sol.value);
        forall k | k in nodes && nodes[k] != nodes0[k] ensures OutputOf(cs, scc, k) {
          assert k in VariableSet(cs, scc, nodes0);
        }
        return nodes, vars, Exact, None;
      }
    }
    var relaxed, passes, stop := Relax(cs, scc, nodes0);
    IterateWrites(cs, scc, nodes0, passes);
    RelaxExitStopped(cs, scc, nodes0);
    route := Relaxed(Exit(passes, stop));
    if stop.Failed? {
      return relaxed, vars, route, Some(stop.fault);
    }
    nodes := RoundAll(relaxed);
    fault := None;
  }
}
