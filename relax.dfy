/**
  The relaxation fallback of `propagate`: passes over one component's
  constraints with a damped update, stopped by a repeated state, a pass
  limit or a pass that changes nothing.
 */
module Relaxation {
  import opened Wrappers
  import opened Values

  const Tolerance: real := 0.000001
  const IterationLimit: nat := 1000

  function Abs(x: real): (r: real)
    ensures r >= 0.0 && (r == x || r == -x)
  {
    if x < 0.0 then -x else x
  }

  /**
    The update rule for one output whose stored value is `prev` and whose
    computed value is `next`: the value stored, or `None` when nothing is.
   */
  function Update(prev: Value, next: Value): (r: Option<Value>)
    // a value that is not a number is overwritten exactly when it differs
    ensures !prev.Num? ==> (r.Some? <==> prev != next) && (r.Some? ==> r.value == next)
    // between numbers, the midpoint is stored when it moves by more than the tolerance
    ensures prev.Num? && next.Num? ==> (r.Some? <==> Abs(next.r - prev.r) > 2.0 * Tolerance)
    ensures prev.Num? && next.Num? && r.Some? ==> r.value == Num((prev.r + next.r) / 2.0)
    // a number is always replaced by a value that is not one
    ensures prev.Num? && !next.Num? ==> r == Some(next)
    // a store is always a change
    ensures r.Some? ==> r.value != prev
  {
    if !prev.Num? then
      if prev != next then Some(next) else None
    else if next.Num? then
      var updated := prev.r + 0.5 * (next.r - prev.r);
      if Abs(updated - prev.r) <= Tolerance then None
      else if updated != prev.r then Some(Num(updated)) else None
    else
      if next != prev then Some(next) else None
  }

  /** `[self.nodes[i] for i in inputs]`. */
  function ReadInputs(nodes: Nodes, names: seq<string>): Result<seq<Value>, Fault>
  {
    if names == [] then Ok([])
    else if names[0] !in nodes then Err(KeyError(names[0]))
    else
      match ReadInputs(nodes, names[1..])
      case Err(e) => Err(e)
      case Ok(rest) => Ok([nodes[names[0]]] + rest)
  }

  /** The values of the inputs in order, or a `KeyError` for the first name that is not a node. */
  lemma {:induction false} ReadInputsSpec(nodes: Nodes, names: seq<string>)
    ensures ReadInputs(nodes, names).Ok? <==> forall k :: 0 <= k < |names| ==> names[k] in nodes
    ensures ReadInputs(nodes, names).Ok? ==> (|ReadInputs(nodes, names).value| == |names| &&
              forall k :: 0 <= k < |names| ==> ReadInputs(nodes, names).value[k] == nodes[names[k]])
    ensures ReadInputs(nodes, names).Err? ==>
              exists k :: 0 <= k < |names| && names[k] !in nodes && ReadInputs(nodes, names).error == KeyError(names[k]) &&
                          forall l :: 0 <= l < k ==> names[l] in nodes
  {
    if names != [] && names[0] in nodes {
      ReadInputsSpec(nodes, names[1..]);
      if ReadInputs(nodes, names[1..]).Err? {
        var k :| 0 <= k < |names| - 1 && names[1..][k] !in nodes && ReadInputs(nodes, names[1..]).error == KeyError(names[1..][k]) &&
                 forall l :: 0 <= l < k ==> names[1..][l] in nodes;
        assert names[k + 1] !in nodes;
      } else {
        assert forall k :: 1 <= k < |names| ==> names[k] == names[1..][k - 1];
      }
    }
  }

  /** The node map and `changed` flag during a pass, and the exception that ended it, if any. */
  datatype PassOut = PassOut(nodes: Nodes, changed: bool, fault: Option<Fault>)

  /** The output loop for one constraint, from output position `j` on. */
  function StoreOutputs(outs: seq<string>, vals: seq<Value>, j: nat, nodes: Nodes, changed: bool): PassOut
    decreases |outs| - j
  {
    if j >= |outs| then PassOut(nodes, changed, None)
    else if j >= |vals| then PassOut(nodes, changed, Some(IndexError))
    else
      match Update(Get(nodes, outs[j]), vals[j])
      case None => StoreOutputs(outs, vals, j + 1, nodes, changed)
      case Some(v) => StoreOutputs(outs, vals, j + 1, nodes[outs[j] := v], true)
  }

  /** One constraint's turn within a pass. */
  function Apply(c: Constraint, nodes: Nodes, changed: bool): PassOut
  {
    match ReadInputs(nodes, c.inputs)
    case Err(e) => PassOut(nodes, changed, Some(e))
    case Ok(vals) => StoreOutputs(c.outputs, c.func(vals), 0, nodes, changed)
  }

  /**
    The output loop raises exactly when the constraint yields fewer values
    than it has outputs, and then an `IndexError`; the changed flag is
    never reset and no node is removed.
   */
  lemma {:induction false} StoreOutputsFault(outs: seq<string>, vals: seq<Value>, j: nat, nodes: Nodes, changed: bool)
    ensures var r := StoreOutputs(outs, vals, j, nodes, changed);
            && (r.fault.Some? <==> j < |outs| && |vals| < |outs|)
            && (r.fault.Some? ==> r.fault.value == IndexError)
            && (changed ==> r.changed)
            && nodes.Keys <= r.nodes.Keys
    decreases |outs| - j
  {
    if j < |outs| && j < |vals| {
      match Update(Get(nodes, outs[j]), vals[j])
      case None => StoreOutputsFault(outs, vals, j + 1, nodes, changed);
      case Some(v) => StoreOutputsFault(outs, vals, j + 1, nodes[outs[j] := v], true);
    }
  }

  /**
    A constraint's turn raises exactly when an input is not a node, or when
    it yields fewer values than it has outputs; the changed flag is never
    reset and no node is removed.
   */
  lemma ApplyFault(c: Constraint, nodes: Nodes, changed: bool)
    ensures var r := Apply(c, nodes, changed);
            && (r.fault.Some? <==> ReadInputs(nodes, c.inputs).Err? || |c.func(ReadInputs(nodes, c.inputs).value)| < |c.outputs|)
            && (changed ==> r.changed)
            && nodes.Keys <= r.nodes.Keys
  {
    if ReadInputs(nodes, c.inputs).Ok? {
      StoreOutputsFault(c.outputs, c.func(ReadInputs(nodes, c.inputs).value), 0, nodes, changed);
    }
  }

  /** One pass over the component, in its order, stopping at the first exception. */
  function Pass(cs: seq<Constraint>, scc: seq<nat>, nodes: Nodes, changed: bool): PassOut
    requires ValidScc(cs, scc)
    decreases |scc|
  {
    if scc == [] then PassOut(nodes, changed, None)
    else
      var r := Apply(cs[scc[0]], nodes, changed);
      if r.fault.Some? then r else Pass(cs, scc[1..], r.nodes, r.changed)
  }

  /** The node map after `k` passes. */
  ghost function Iterate(cs: seq<Constraint>, scc: seq<nat>, nodes: Nodes, k: nat): Nodes
    requires ValidScc(cs, scc)
  {
    if k == 0 then nodes else Pass(cs, scc, Iterate(cs, scc, nodes, k - 1), false).nodes
  }

  // ---------------------------------------------------------------------
  // What a pass may change
  // ---------------------------------------------------------------------

  /** `after` keeps every node of `before`, and differs from it only at names `cs`'s component writes. */
  ghost predicate WritesOnly(cs: seq<Constraint>, scc: seq<nat>, before: Nodes, after: Nodes)
  {
    && before.Keys <= after.Keys
    && forall k :: k in after && (k !in before || after[k] != before[k]) ==> OutputOf(cs, scc, k)
  }

  lemma {:induction false} StoreOutputsWrites(cs: seq<Constraint>, scc: seq<nat>, m: nat, vals: seq<Value>, j: nat,
                                              nodes: Nodes, changed: bool)
    requires m < |scc| && scc[m] < |cs|
    ensures WritesOnly(cs, scc, nodes, StoreOutputs(cs[scc[m]].outputs, vals, j, nodes, changed).nodes)
    ensures !StoreOutputs(cs[scc[m]].outputs, vals, j, nodes, changed).changed ==>
              !changed && StoreOutputs(cs[scc[m]].outputs, vals, j, nodes, changed).nodes == nodes
    decreases |cs[scc[m]].outputs| - j
  {
    var outs := cs[scc[m]].outputs;
    if j < |outs| && j < |vals| {
      match Update(Get(nodes, outs[j]), vals[j])
      case None =>
        StoreOutputsWrites(cs, scc, m, vals, j + 1, nodes, changed);
      case Some(v) =>
        var n1 := nodes[outs[j] := v];
        StoreOutputsWrites(cs, scc, m, vals, j + 1, n1, true);
        assert OutputOf(cs, scc, outs[j]) by {
          assert outs[j] in cs[scc[m]].outputs;
        }
    }
  }

  lemma WritesOnlyTrans(cs: seq<Constraint>, scc: seq<nat>, a: Nodes, b: Nodes, c: Nodes)
    requires WritesOnly(cs, scc, a, b) && WritesOnly(cs, scc, b, c)
    ensures WritesOnly(cs, scc, a, c)
  {
    forall k | k in c && (k !in a || c[k] != a[k]) ensures OutputOf(cs, scc, k) {
      if k in b && c[k] == b[k] {
        assert k !in a || b[k] != a[k];
      }
    }
  }

  /** A pass keeps every node, writes only the component's outputs, and leaves the map alone when nothing changed. */
  lemma {:induction false} PassWrites(cs: seq<Constraint>, scc: seq<nat>, rest: nat, nodes: Nodes, changed: bool)
    requires ValidScc(cs, scc) && rest <= |scc|
    ensures WritesOnly(cs, scc, nodes, Pass(cs, scc[rest..], nodes, changed).nodes)
    ensures !Pass(cs, scc[rest..], nodes, changed).changed ==> !changed && Pass(cs, scc[rest..], nodes, changed).nodes == nodes
    decreases |scc| - rest
  {
    var tail := scc[rest..];
    if tail != [] {
      var c := cs[scc[rest]];
      assert tail[0] == scc[rest];
      match ReadInputs(nodes, c.inputs)
      case Err(e) =>
      case Ok(vals) =>
        StoreOutputsWrites(cs, scc, rest, c.func(vals), 0, nodes, changed);
        var r := Apply(c, nodes, changed);
        if r.fault.None? {
          assert tail[1..] == scc[rest + 1..];
          PassWrites(cs, scc, rest + 1, r.nodes, r.changed);
          WritesOnlyTrans(cs, scc, nodes, r.nodes, Pass(cs, scc[rest + 1..], r.nodes, r.changed).nodes);
        }
    }
  }

  lemma PassWritesAll(cs: seq<Constraint>, scc: seq<nat>, nodes: Nodes)
    requires ValidScc(cs, scc)
    ensures WritesOnly(cs, scc, nodes, Pass(cs, scc, nodes, false).nodes)
    ensures !Pass(cs, scc, nodes, false).changed ==> Pass(cs, scc, nodes, false).nodes == nodes
  {
    PassWrites(cs, scc, 0, nodes, false);
    assert scc[0..] == scc;
  }

  lemma {:induction false} IterateWrites(cs: seq<Constraint>, scc: seq<nat>, nodes: Nodes, k: nat)
    requires ValidScc(cs, scc)
    ensures WritesOnly(cs, scc, nodes, Iterate(cs, scc, nodes, k))
  {
    if k > 0 {
      IterateWrites(cs, scc, nodes, k - 1);
      var prev := Iterate(cs, scc, nodes, k - 1);
      PassWritesAll(cs, scc, prev);
      WritesOnlyTrans(cs, scc, nodes, prev, Iterate(cs, scc, nodes, k));
    }
  }

  // ---------------------------------------------------------------------
  // The loops
  // ---------------------------------------------------------------------

  /** The loop over one constraint's outputs, with the update rule written out as `propagate` branches on it. */
  method StoreLoop(outs: seq<string>, vals: seq<Value>, nodes0: Nodes, changed0: bool) returns (r: PassOut)
    ensures r == StoreOutputs(outs, vals, 0, nodes0, changed0)
  {
    var nodes, changed := nodes0, changed0;
    for j := 0 to |outs|
      invariant StoreOutputs(outs, vals, j, nodes, changed) == StoreOutputs(outs, vals, 0, nodes0, changed0)
    {
      var prev := Get(nodes, outs[j]);
      if j >= |vals| {
        return PassOut(nodes, changed, Some(IndexError));
      }
      var next := vals[j];
      if !prev.Num? {
        if prev != next {
          nodes := nodes[outs[j] := next];
          changed := true;
        }
        continue;
      }
      var updated;
      if next.Num? {
        updated := Num(prev.r + 0.5 * (next.r - prev.r));
        if Abs(updated.r - prev.r) <= Tolerance {
          continue;
        }
      } else {
        updated := next;
      }
      if updated != prev {
        nodes := nodes[outs[j] := updated];
        changed := true;
      }
    }
    r := PassOut(nodes, changed, None);
  }

  /** One relaxation pass: every constraint of the component in turn, from the current map. */
  method RelaxPass(cs: seq<Constraint>, scc: seq<nat>, nodes0: Nodes) returns (r: PassOut)
    requires ValidScc(cs, scc)
    ensures r == Pass(cs, scc, nodes0, false)
  {
    var nodes, changed := nodes0, false;
    for m := 0 to |scc|
      invariant Pass(cs, scc[m..], nodes, changed) == Pass(cs, scc, nodes0, false)
    {
      assert scc[m..][0] == scc[m] && scc[m..][1..] == scc[m + 1..];
      var c := cs[scc[m]];
      var input := ReadInputs(nodes, c.inputs);
      if input.Err? {
        return PassOut(nodes, changed, Some(input.error));
      }
      var outcome := StoreLoop(c.outputs, c.func(input.value), nodes, changed);
      if outcome.fault.Some? {
        return outcome;
      }
      nodes, changed := outcome.nodes, outcome.changed;
    }
    r := PassOut(nodes, changed, None);
  }

  /** Why the relaxation loop stopped. */
  datatype Stop = Repeated | Limit | Stable | Failed(fault: Fault)

  /** How the relaxation loop ends: after how many passes, and why. */
  datatype Exit = Exit(passes: nat, stop: Stop)

  /** Pass number `k`, run on the map after `k` passes, raised nothing and stored something. */
  ghost predicate Progressed(cs: seq<Constraint>, scc: seq<nat>, nodes0: Nodes, k: nat)
    requires ValidScc(cs, scc)
  {
    var r := Pass(cs, scc, Iterate(cs, scc, nodes0, k), false);
    r.fault.None? && r.changed
  }

  /** Each of the first `n` passes raised nothing and stored something. */
  ghost predicate AllProgressed(cs: seq<Constraint>, scc: seq<nat>, nodes0: Nodes, n: nat)
    requires ValidScc(cs, scc)
  {
    n == 0 || (AllProgressed(cs, scc, nodes0, n - 1) && Progressed(cs, scc, nodes0, n - 1))
  }

  /** Progress over `m` passes includes progress over fewer. */
  lemma {:induction false} ProgressedPrefix(cs: seq<Constraint>, scc: seq<nat>, nodes0: Nodes, m: nat, n: nat)
    requires ValidScc(cs, scc) && n <= m
    ensures AllProgressed(cs, scc, nodes0, m) ==> AllProgressed(cs, scc, nodes0, n)
  {
    if n < m {
      ProgressedPrefix(cs, scc, nodes0, m - 1, n);
    }
  }

  /** Progress, pass by pass. */
  lemma {:induction false} ProgressedEach(cs: seq<Constraint>, scc: seq<nat>, nodes0: Nodes, n: nat, k: nat)
    requires ValidScc(cs, scc) && AllProgressed(cs, scc, nodes0, n) && k < n
    ensures Progressed(cs, scc, nodes0, k)
  {
    ProgressedPrefix(cs, scc, nodes0, n, k + 1);
  }

  /** The maps after 0, 1, ..., `n - 1` passes: what `seen_states` holds when the loop checks the map after `n`. */
  ghost function Earlier(cs: seq<Constraint>, scc: seq<nat>, nodes0: Nodes, n: nat): set<Nodes>
    requires ValidScc(cs, scc)
  {
    if n == 0 then {} else Earlier(cs, scc, nodes0, n - 1) + {Iterate(cs, scc, nodes0, n - 1)}
  }

  /** The maps after 0, 1, ..., `n` passes are pairwise different. */
  ghost predicate DistinctStates(cs: seq<Constraint>, scc: seq<nat>, nodes0: Nodes, n: nat)
    requires ValidScc(cs, scc)
  {
    n == 0 || (DistinctStates(cs, scc, nodes0, n - 1) && Iterate(cs, scc, nodes0, n) !in Earlier(cs, scc, nodes0, n))
  }

  /** `Earlier` holds exactly the maps after fewer than `n` passes. */
  lemma {:induction false} EarlierSpec(cs: seq<Constraint>, scc: seq<nat>, nodes0: Nodes, n: nat, m: Nodes)
    requires ValidScc(cs, scc)
    ensures m in Earlier(cs, scc, nodes0, n) <==> exists k: nat :: k < n && Iterate(cs, scc, nodes0, k) == m
  {
    if n > 0 {
      EarlierSpec(cs, scc, nodes0, n - 1, m);
      if m in Earlier(cs, scc, nodes0, n) {
        if m in Earlier(cs, scc, nodes0, n - 1) {
          var k: nat :| k < n - 1 && Iterate(cs, scc, nodes0, k) == m;
          assert k < n;
        } else {
          var k: nat := n - 1;
          assert m == Iterate(cs, scc, nodes0, k);
          assert exists k: nat :: k < n && Iterate(cs, scc, nodes0, k) == m;
        }
      } else {
        forall k: nat | k < n ensures Iterate(cs, scc, nodes0, k) != m {
          if k == n - 1 {
            assert Iterate(cs, scc, nodes0, n - 1) in Earlier(cs, scc, nodes0, n);
          }
        }
      }
    }
  }

  /** Maps pairwise different up to `m` passes are so up to fewer. */
  lemma {:induction false} DistinctPrefix(cs: seq<Constraint>, scc: seq<nat>, nodes0: Nodes, m: nat, n: nat)
    requires ValidScc(cs, scc) && n <= m
    ensures DistinctStates(cs, scc, nodes0, m) ==> DistinctStates(cs, scc, nodes0, n)
  {
    if n < m {
      DistinctPrefix(cs, scc, nodes0, m - 1, n);
    }
  }

  /** Distinct states, pair by pair. */
  lemma DistinctPair(cs: seq<Constraint>, scc: seq<nat>, nodes0: Nodes, n: nat, l: nat, k: nat)
    requires ValidScc(cs, scc) && DistinctStates(cs, scc, nodes0, n) && l < k <= n
    ensures Iterate(cs, scc, nodes0, l) != Iterate(cs, scc, nodes0, k)
  {
    DistinctPrefix(cs, scc, nodes0, n, k);
    EarlierSpec(cs, scc, nodes0, k, Iterate(cs, scc, nodes0, l));
  }

  /**
    The loop's exit after `passes` passes, for reason `stop`, is its FIRST
    exit: no earlier state repeated, every earlier pass raised nothing and
    changed something, and the exit taken is the one the loop tests first.
   */
  ghost predicate Stopped(cs: seq<Constraint>, scc: seq<nat>, nodes0: Nodes, passes: nat, stop: Stop)
    requires ValidScc(cs, scc)
  {
    && passes <= IterationLimit
    && match stop
       case Repeated =>
         // the state before pass `passes + 1` was seen before
         && passes > 0 && AllProgressed(cs, scc, nodes0, passes) && DistinctStates(cs, scc, nodes0, passes - 1)
         && Iterate(cs, scc, nodes0, passes) in Earlier(cs, scc, nodes0, passes)
       case Limit =>
         // the counter passed the limit before any state repeated
         && passes == IterationLimit && AllProgressed(cs, scc, nodes0, passes) && DistinctStates(cs, scc, nodes0, passes)
       case Stable =>
         // the last pass stored nothing
         && passes > 0 && AllProgressed(cs, scc, nodes0, passes - 1) && DistinctStates(cs, scc, nodes0, passes - 1)
         && var r := Pass(cs, scc, Iterate(cs, scc, nodes0, passes - 1), false); r.fault.None? && !r.changed
       case Failed(e) =>
         // the last pass raised `e`
         && passes > 0 && AllProgressed(cs, scc, nodes0, passes - 1) && DistinctStates(cs, scc, nodes0, passes - 1)
         && Pass(cs, scc, Iterate(cs, scc, nodes0, passes - 1), false).fault == Some(e)
  }

  /** An exit after `p` passes rules out an exit after fewer. */
  lemma NotStoppedBefore(cs: seq<Constraint>, scc: seq<nat>, nodes0: Nodes, p: nat, s: Stop, q: nat, t: Stop)
    requires ValidScc(cs, scc) && Stopped(cs, scc, nodes0, p, s) && q < p
    ensures !Stopped(cs, scc, nodes0, q, t)
  {
    if q > 0 {
      ProgressedPrefix(cs, scc, nodes0, p - 1, q);
      DistinctPrefix(cs, scc, nodes0, p - 1, q);
    }
  }

  /** An exit after `p` passes rules out an exit after more. */
  lemma NotStoppedAfter(cs: seq<Constraint>, scc: seq<nat>, nodes0: Nodes, p: nat, s: Stop, q: nat, t: Stop)
    requires ValidScc(cs, scc) && Stopped(cs, scc, nodes0, p, s) && p < q
    ensures !Stopped(cs, scc, nodes0, q, t)
  {
    match s
    case Repeated =>
      DistinctPrefix(cs, scc, nodes0, q - 1, p);
    case Limit =>
    case Stable =>
      ProgressedPrefix(cs, scc, nodes0, q - 1, p);
      ProgressedPrefix(cs, scc, nodes0, q, p);
    case Failed(e) =>
      ProgressedPrefix(cs, scc, nodes0, q - 1, p);
      ProgressedPrefix(cs, scc, nodes0, q, p);
  }

  /** An exit after `p` passes for one reason rules out any other reason. */
  lemma NotStoppedOther(cs: seq<Constraint>, scc: seq<nat>, nodes0: Nodes, p: nat, s: Stop, t: Stop)
    requires ValidScc(cs, scc) && Stopped(cs, scc, nodes0, p, s) && t != s
    ensures !Stopped(cs, scc, nodes0, p, t)
  {
    match s
    case Repeated =>
    case Limit =>
    case Stable =>
      assert !Progressed(cs, scc, nodes0, p - 1);
    case Failed(e) =>
      assert !Progressed(cs, scc, nodes0, p - 1);
  }

  /** The exit is determined by the component and the starting map: any exit is the same number of passes, for the same reason. */
  lemma StoppedUnique(cs: seq<Constraint>, scc: seq<nat>, nodes0: Nodes, p: nat, s: Stop, q: nat, t: Stop)
    requires ValidScc(cs, scc) && Stopped(cs, scc, nodes0, p, s)
    ensures Stopped(cs, scc, nodes0, q, t) ==> q == p && t == s
  {
    if q < p {
      NotStoppedBefore(cs, scc, nodes0, p, s, q, t);
    } else if p < q {
      NotStoppedAfter(cs, scc, nodes0, p, s, q, t);
    } else if t != s {
      NotStoppedOther(cs, scc, nodes0, p, s, t);
    }
  }

  /** The loop's exits, each from the facts the loop has in hand when it takes it. */
  lemma ExitRepeated(cs: seq<Constraint>, scc: seq<nat>, nodes0: Nodes, n: nat)
    requires ValidScc(cs, scc) && 0 < n <= IterationLimit
    requires AllProgressed(cs, scc, nodes0, n) && DistinctStates(cs, scc, nodes0, n - 1)
    requires Iterate(cs, scc, nodes0, n) in Earlier(cs, scc, nodes0, n)
    ensures Stopped(cs, scc, nodes0, n, Repeated)
  {
  }

  /** The counter reaching its limit. */
  lemma ExitLimit(cs: seq<Constraint>, scc: seq<nat>, nodes0: Nodes)
    requires ValidScc(cs, scc)
    requires AllProgressed(cs, scc, nodes0, IterationLimit) && DistinctStates(cs, scc, nodes0, IterationLimit)
    ensures Stopped(cs, scc, nodes0, IterationLimit, Limit)
  {
  }

  /** The pass that raises or stores nothing. */
  lemma ExitLast(cs: seq<Constraint>, scc: seq<nat>, nodes0: Nodes, n: nat, r: PassOut)
    requires ValidScc(cs, scc) && n < IterationLimit
    requires AllProgressed(cs, scc, nodes0, n) && DistinctStates(cs, scc, nodes0, n)
    requires r == Pass(cs, scc, Iterate(cs, scc, nodes0, n), false)
    ensures Iterate(cs, scc, nodes0, n + 1) == r.nodes
    ensures r.fault.Some? ==> Stopped(cs, scc, nodes0, n + 1, Failed(r.fault.value))
    ensures r.fault.None? && !r.changed ==> Stopped(cs, scc, nodes0, n + 1, Stable)
  {
  }

  /** The loop's bookkeeping for one more round: a map not seen before joins `seen_states`. */
  lemma Unseen(cs: seq<Constraint>, scc: seq<nat>, nodes0: Nodes, n: nat, seen: set<Nodes>)
    requires ValidScc(cs, scc) && seen == Earlier(cs, scc, nodes0, n)
    requires n > 0 ==> DistinctStates(cs, scc, nodes0, n - 1)
    requires Iterate(cs, scc, nodes0, n) !in seen
    ensures DistinctStates(cs, scc, nodes0, n) && seen + {Iterate(cs, scc, nodes0, n)} == Earlier(cs, scc, nodes0, n + 1)
  {
  }

  /** A pass that raised nothing and stored something extends the progress. */
  lemma Advance(cs: seq<Constraint>, scc: seq<nat>, nodes0: Nodes, n: nat, r: PassOut)
    requires ValidScc(cs, scc) && AllProgressed(cs, scc, nodes0, n)
    requires r == Pass(cs, scc, Iterate(cs, scc, nodes0, n), false) && r.fault.None? && r.changed
    ensures AllProgressed(cs, scc, nodes0, n + 1)
  {
  }

  /**
    Where the loop goes once it has run `n` passes and checks the map after
    them: the number of passes it will have run when it leaves, and why.
   */
  ghost function ExitFrom(cs: seq<Constraint>, scc: seq<nat>, nodes0: Nodes, n: nat): Exit
    requires ValidScc(cs, scc) && n <= IterationLimit
    decreases IterationLimit - n
  {
    if Iterate(cs, scc, nodes0, n) in Earlier(cs, scc, nodes0, n) then Exit(n, Repeated)
    else if n == IterationLimit then Exit(n, Limit)
    else
      var r := Pass(cs, scc, Iterate(cs, scc, nodes0, n), false);
      if r.fault.Some? then Exit(n + 1, Failed(r.fault.value))
      else if !r.changed then Exit(n + 1, Stable)
      else ExitFrom(cs, scc, nodes0, n + 1)
  }

  /** The loop's next step, by the checks it makes before a pass. */
  lemma ExitFromHere(cs: seq<Constraint>, scc: seq<nat>, nodes0: Nodes, n: nat, seen: set<Nodes>)
    requires ValidScc(cs, scc) && n <= IterationLimit && seen == Earlier(cs, scc, nodes0, n)
    ensures Iterate(cs, scc, nodes0, n) in seen ==> ExitFrom(cs, scc, nodes0, n) == Exit(n, Repeated)
    ensures Iterate(cs, scc, nodes0, n) !in seen && n == IterationLimit ==> ExitFrom(cs, scc, nodes0, n) == Exit(n, Limit)
    ensures seen + {Iterate(cs, scc, nodes0, n)} == Earlier(cs, scc, nodes0, n + 1)
  {
  }

  /** The loop's next step, by the outcome of the pass. */
  lemma ExitFromPass(cs: seq<Constraint>, scc: seq<nat>, nodes0: Nodes, n: nat, r: PassOut)
    requires ValidScc(cs, scc) && n < IterationLimit && Iterate(cs, scc, nodes0, n) !in Earlier(cs, scc, nodes0, n)
    requires r == Pass(cs, scc, Iterate(cs, scc, nodes0, n), false)
    ensures Iterate(cs, scc, nodes0, n + 1) == r.nodes
    ensures r.fault.Some? ==> ExitFrom(cs, scc, nodes0, n) == Exit(n + 1, Failed(r.fault.value))
    ensures r.fault.None? && !r.changed ==> ExitFrom(cs, scc, nodes0, n) == Exit(n + 1, Stable)
    ensures r.fault.None? && r.changed ==> ExitFrom(cs, scc, nodes0, n) == ExitFrom(cs, scc, nodes0, n + 1)
  {
  }

  /** From any point the loop reaches, the exit it goes to is its first exit. */
  lemma {:induction false} ExitFromStopped(cs: seq<Constraint>, scc: seq<nat>, nodes0: Nodes, n: nat)
    requires ValidScc(cs, scc) && n <= IterationLimit
    requires AllProgressed(cs, scc, nodes0, n) && (n > 0 ==> DistinctStates(cs, scc, nodes0, n - 1))
    ensures Stopped(cs, scc, nodes0, ExitFrom(cs, scc, nodes0, n).passes, ExitFrom(cs, scc, nodes0, n).stop)
    decreases IterationLimit - n
  {
    var m := Iterate(cs, scc, nodes0, n);
    var seen := Earlier(cs, scc, nodes0, n);
    if m in seen {
      ExitRepeated(cs, scc, nodes0, n);
    } else {
      Unseen(cs, scc, nodes0, n, seen);
      if n == IterationLimit {
        ExitLimit(cs, scc, nodes0);
      } else {
        var r := Pass(cs, scc, m, false);
        ExitLast(cs, scc, nodes0, n, r);
        if r.fault.None? && r.changed {
          Advance(cs, scc, nodes0, n, r);
          ExitFromStopped(cs, scc, nodes0, n + 1);
        }
      }
    }
  }

  /** The loop stops at its first exit, whatever the component and the starting map. */
  lemma RelaxExitStopped(cs: seq<Constraint>, scc: seq<nat>, nodes0: Nodes)
    requires ValidScc(cs, scc)
    ensures Stopped(cs, scc, nodes0, ExitFrom(cs, scc, nodes0, 0).passes, ExitFrom(cs, scc, nodes0, 0).stop)
  {
    ExitFromStopped(cs, scc, nodes0, 0);
  }

  /**
    The relaxation loop. The map it ends with is the map after `passes`
    passes, and `passes` and `stop` are the loop's first exit.
   */
  method Relax(cs: seq<Constraint>, scc: seq<nat>, nodes0: Nodes) returns (nodes: Nodes, passes: nat, stop: Stop)
    requires ValidScc(cs, scc)
    ensures nodes == Iterate(cs, scc, nodes0, passes)
    ensures Exit(passes, stop) == ExitFrom(cs, scc, nodes0, 0)
  {
    var seen: set<Nodes> := {};
    var iteration := 0;
    nodes, passes := nodes0, 0;
    while true
      invariant passes == iteration <= IterationLimit
      invariant nodes == Iterate(cs, scc, nodes0, passes)
      invariant seen == Earlier(cs, scc, nodes0, passes)
      invariant ExitFrom(cs, scc, nodes0, passes) == ExitFrom(cs, scc, nodes0, 0)
      decreases IterationLimit - iteration
    {
      ExitFromHere(cs, scc, nodes0, passes, seen);
      if nodes in seen {
        stop := Repeated;
        break;
      }
      seen := seen + {nodes};
      iteration := iteration + 1;
      if iteration > IterationLimit {
        stop := Limit;
        break;
      }
      var r := RelaxPass(cs, scc, nodes);
      ExitFromPass(cs, scc, nodes0, passes, r);
      nodes, passes := r.nodes, passes + 1;
      if r.fault.Some? {
        stop := Failed(r.fault.value);
        break;
      }
      if !r.changed {
        stop := Stable;
        break;
      }
    }
  }
}
