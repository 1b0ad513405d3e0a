/**
  The exact-solve attempt of `propagate`: the tracked variables of a
  component, the linear system built by unit finite differences around the
  current values, and the acceptance test on its rank.
 */
module Linear {
  import opened Wrappers
  import opened Values
  import opened Order

  // ---------------------------------------------------------------------
  // Variables
  // ---------------------------------------------------------------------

  /** The component's output names that are already nodes. */
  function VariableSet(cs: seq<Constraint>, scc: seq<nat>, nodes: Nodes): (vs: set<string>)
    requires ValidScc(cs, scc)
    ensures forall o :: o in vs <==> o in nodes && OutputOf(cs, scc, o)
  {
    set m, o | 0 <= m < |scc| && o in cs[scc[m]].outputs && o in nodes :: o
  }

  /** `var_index[name]`. */
  function Position(vars: seq<string>, name: string): (p: nat)
    requires name in vars
    ensures p < |vars| && vars[p] == name
  {
    if vars[0] == name then 0 else 1 + Position(vars[1..], name)
  }

  lemma PositionUnique(vars: seq<string>, p: nat)
    requires StrictlySorted(vars) && p < |vars|
    ensures Position(vars, vars[p]) == p
  {
    var q := Position(vars, vars[p]);
    if q < p {
      LessIrreflexive(vars[p]);
    } else if q > p {
      LessIrreflexive(vars[p]);
    }
  }

  // ---------------------------------------------------------------------
  // Linearisation of one constraint
  // ---------------------------------------------------------------------

  /** `float(self.nodes.get(name, 0.0))`: a missing node reads as 0.0, a stored non-number fails. */
  function Float(nodes: Nodes, name: string): (r: Result<real, Fault>)
    ensures name !in nodes ==> r == Ok(0.0)
    ensures name in nodes ==> (r.Ok? <==> nodes[name].Num?) && (r.Ok? ==> r.value == nodes[name].r)
    ensures r.Err? ==> r.error == TypeError
  {
    if name !in nodes then Ok(0.0)
    else if nodes[name].Num? then Ok(nodes[name].r)
    else Err(TypeError)
  }

  /** `baseline_inputs`. */
  function Baseline(nodes: Nodes, names: seq<string>): (r: Result<seq<real>, Fault>)
    ensures r.Ok? ==> |r.value| == |names|
    ensures r.Err? ==> r.error == TypeError
  {
    if names == [] then Ok([])
    else
      match Float(nodes, names[0])
      case Err(e) => Err(e)
      case Ok(x) =>
        match Baseline(nodes, names[1..])
        case Err(e) => Err(e)
        case Ok(rest) => Ok([x] + rest)
  }

  /** The baseline succeeds exactly when every input reads as a number, and then holds those numbers. */
  lemma {:induction false} BaselineSpec(nodes: Nodes, names: seq<string>)
    ensures Baseline(nodes, names).Ok? <==> forall k :: 0 <= k < |names| ==> Float(nodes, names[k]).Ok?
    ensures Baseline(nodes, names).Ok? ==> (|Baseline(nodes, names).value| == |names| &&
              forall k :: 0 <= k < |names| ==> Baseline(nodes, names).value[k] == Float(nodes, names[k]).value)
  {
    if names != [] {
      BaselineSpec(nodes, names[1..]);
      assert forall k :: 1 <= k < |names| ==> names[k] == names[1..][k - 1];
    }
  }

  function Nums(xs: seq<real>): (vs: seq<Value>)
    ensures |vs| == |xs| && forall k :: 0 <= k < |xs| ==> vs[k] == Num(xs[k])
  {
    seq(|xs|, k requires 0 <= k < |xs| => Num(xs[k]))
  }

  /** `float(base_output[out_pos])`. */
  function Constant(base: seq<Value>, k: nat): (r: Result<real, Fault>)
    ensures r.Ok? <==> k < |base| && base[k].Num?
    ensures r.Ok? ==> r.value == base[k].r
  {
    if k >= |base| then Err(IndexError)
    else if base[k].Num? then Ok(base[k].r)
    else Err(TypeError)
  }

  /** The change of output `k` when input `i` alone is raised by 1.0 from the baseline. */
  function Delta(c: Constraint, bl: seq<real>, base: seq<Value>, k: nat, i: nat): (r: Result<real, Fault>)
    requires i < |bl|
    ensures var pert := c.func(Nums(bl[i := bl[i] + 1.0]));
            && (r.Ok? <==> k < |pert| && k < |base| && pert[k].Num? && base[k].Num?)
            && (r.Ok? ==> base[k].r + r.value == pert[k].r)
            && (r.Err? ==> (r.error == IndexError <==> k >= |pert|) && (r.error == IndexError || r.error == TypeError))
  {
    var pert := c.func(Nums(bl[i := bl[i] + 1.0]));
    if k >= |pert| then Err(IndexError)
    else if pert[k].Num? && k < |base| && base[k].Num? then Ok(pert[k].r - base[k].r)
    else Err(TypeError)
  }

  ghost function DeltaOr0(c: Constraint, bl: seq<real>, base: seq<Value>, k: nat, i: nat): real
    requires i < |bl|
  {
    var d := Delta(c, bl, base, k, i);
    if d.Ok? then d.value else 0.0
  }

  /** The sum of the deltas of output `k` over the input positions below `n` that read `name`. */
  ghost function SumDelta(c: Constraint, bl: seq<real>, base: seq<Value>, k: nat, name: string, n: nat): real
    requires n <= |bl| == |c.inputs|
  {
    if n == 0 then 0.0
    else SumDelta(c, bl, base, k, name, n - 1) + (if c.inputs[n - 1] == name then DeltaOr0(c, bl, base, k, n - 1) else 0.0)
  }

  /** The sum of delta times baseline value over the tracked input positions below `n`. */
  ghost function SumShift(c: Constraint, bl: seq<real>, base: seq<Value>, k: nat, vars: seq<string>, n: nat): real
    requires n <= |bl| == |c.inputs|
  {
    if n == 0 then 0.0
    else SumShift(c, bl, base, k, vars, n - 1) + (if c.inputs[n - 1] in vars then DeltaOr0(c, bl, base, k, n - 1) * bl[n - 1] else 0.0)
  }

  /** The row of output `k` after the input positions below `n` have been subtracted. */
  ghost function PartialRow(c: Constraint, bl: seq<real>, base: seq<Value>, vars: seq<string>, k: nat, n: nat): (row: seq<real>)
    requires n <= |bl| == |c.inputs| && k < |c.outputs|
    ensures |row| == |vars|
  {
    seq(|vars|, p requires 0 <= p < |vars| =>
      (if vars[p] == c.outputs[k] then 1.0 else 0.0) - SumDelta(c, bl, base, k, vars[p], n))
  }

  /**
    The row of output `k`: 1 on the output's own variable, minus, on every
    variable, the deltas of the inputs that read it.
   */
  ghost function RowSpec(c: Constraint, bl: seq<real>, base: seq<Value>, vars: seq<string>, k: nat): (row: seq<real>)
    requires |bl| == |c.inputs| && k < |c.outputs|
    ensures |row| == |vars|
  {
    PartialRow(c, bl, base, vars, k, |bl|)
  }

  /** Subtracting input `i`: only the entry of the variable it reads moves, by its delta. */
  lemma PartialRowStep(c: Constraint, bl: seq<real>, base: seq<Value>, vars: seq<string>, k: nat, i: nat, p: nat)
    requires i < |bl| == |c.inputs| && k < |c.outputs| && StrictlySorted(vars)
    requires p < |vars| && vars[p] == c.inputs[i]
    ensures PartialRow(c, bl, base, vars, k, i + 1) ==
            PartialRow(c, bl, base, vars, k, i)[p := PartialRow(c, bl, base, vars, k, i)[p] - DeltaOr0(c, bl, base, k, i)]
  {
    forall q | 0 <= q < |vars| && q != p ensures vars[q] != c.inputs[i] {
      PositionUnique(vars, q);
      PositionUnique(vars, p);
    }
  }

  lemma PartialRowSkip(c: Constraint, bl: seq<real>, base: seq<Value>, vars: seq<string>, k: nat, i: nat)
    requires i < |bl| == |c.inputs| && k < |c.outputs| && c.inputs[i] !in vars
    ensures PartialRow(c, bl, base, vars, k, i + 1) == PartialRow(c, bl, base, vars, k, i)
  {
  }

  /** The constant of output `k`: its baseline value minus delta times baseline over the tracked inputs. */
  ghost function ConstSpec(c: Constraint, bl: seq<real>, base: seq<Value>, vars: seq<string>, k: nat): real
    requires |bl| == |c.inputs| && k < |base| && base[k].Num?
  {
    base[k].r - SumShift(c, bl, base, k, vars, |bl|)
  }

  /** Building the row of output `k` raises nothing. */
  ghost predicate RowOk(c: Constraint, bl: seq<real>, base: seq<Value>, vars: seq<string>, k: nat)
    requires |bl| == |c.inputs|
  {
    && Constant(base, k).Ok?
    && forall i :: 0 <= i < |bl| && c.inputs[i] in vars ==> Delta(c, bl, base, k, i).Ok?
  }

  /** The exception building the row of output `k` raises: the constant's, else the first tracked input's delta. */
  ghost function RowFault(c: Constraint, bl: seq<real>, base: seq<Value>, vars: seq<string>, k: nat): Option<Fault>
    requires |bl| == |c.inputs|
  {
    if Constant(base, k).Err? then Some(Constant(base, k).error) else DeltaFault(c, bl, base, vars, k, 0)
  }

  /** The first failing delta among the tracked input positions from `i` on. */
  ghost function DeltaFault(c: Constraint, bl: seq<real>, base: seq<Value>, vars: seq<string>, k: nat, i: nat): Option<Fault>
    requires i <= |bl| == |c.inputs|
    decreases |bl| - i
  {
    if i == |bl| then None
    else if c.inputs[i] in vars && Delta(c, bl, base, k, i).Err? then Some(Delta(c, bl, base, k, i).error)
    else DeltaFault(c, bl, base, vars, k, i + 1)
  }

  /** Away from a row's own output and its inputs, its entries are 0; on its own output it is 1 unless the output is also read. */
  lemma RowShape(c: Constraint, bl: seq<real>, base: seq<Value>, vars: seq<string>, k: nat, p: nat)
    requires |bl| == |c.inputs| && k < |c.outputs| && p < |vars|
    ensures vars[p] !in c.inputs ==> RowSpec(c, bl, base, vars, k)[p] == if vars[p] == c.outputs[k] then 1.0 else 0.0
  {
    if vars[p] !in c.inputs {
      SumDeltaUnread(c, bl, base, k, vars[p], |bl|);
    }
  }

  lemma {:induction false} SumDeltaUnread(c: Constraint, bl: seq<real>, base: seq<Value>, k: nat, name: string, n: nat)
    requires n <= |bl| == |c.inputs| && name !in c.inputs
    ensures SumDelta(c, bl, base, k, name, n) == 0.0
  {
    if n > 0 {
      SumDeltaUnread(c, bl, base, k, name, n - 1);
      assert c.inputs[n - 1] in c.inputs;
    }
  }

  /** The row and constant for output `k` of one constraint. */
  method BuildRow(c: Constraint, bl: seq<real>, base: seq<Value>, vars: seq<string>, k: nat)
    returns (r: Result<(seq<real>, real), Fault>)
    requires |bl| == |c.inputs| && k < |c.outputs| && c.outputs[k] in vars && StrictlySorted(vars)
    ensures r.Ok? <==> RowOk(c, bl, base, vars, k)
    ensures r.Ok? ==> r.value.0 == RowSpec(c, bl, base, vars, k) && r.value.1 == ConstSpec(c, bl, base, vars, k)
    ensures RowFault(c, bl, base, vars, k) == if r.Ok? then None else Some(r.error)
  {
    var row := seq(|vars|, p => 0.0);
    var own := Position(vars, c.outputs[k]);
    forall q | 0 <= q < |vars| && vars[q] == c.outputs[k] ensures q == own {
      PositionUnique(vars, q);
    }
    row := row[own := 1.0];
    var constant := Constant(base, k);
    if constant.Err? {
      return Err(constant.error);
    }
    var shifted := constant.value;
    for i := 0 to |c.inputs|
      invariant row == PartialRow(c, bl, base, vars, k, i)
      invariant shifted == base[k].r - SumShift(c, bl, base, k, vars, i)
      invariant forall j :: 0 <= j < i && c.inputs[j] in vars ==> Delta(c, bl, base, k, j).Ok?
      invariant DeltaFault(c, bl, base, vars, k, i) == DeltaFault(c, bl, base, vars, k, 0)
    {
      if c.inputs[i] !in vars {
        PartialRowSkip(c, bl, base, vars, k, i);
        continue;
      }
      var delta := Delta(c, bl, base, k, i);
      if delta.Err? {
        return Err(delta.error);
      }
      var p := Position(vars, c.inputs[i]);
      PartialRowStep(c, bl, base, vars, k, i, p);
      row := row[p := row[p] - delta.value];
      shifted := shifted - delta.value * bl[i];
    }
    r := Ok((row, shifted));
  }

  // ---------------------------------------------------------------------
  // The system of one component
  // ---------------------------------------------------------------------

  /** The output positions below `n` whose name is a variable, in order: one row each. */
  function TrackedOutputs(outs: seq<string>, vars: seq<string>, n: nat): (ks: seq<nat>)
    requires n <= |outs|
    ensures forall t :: 0 <= t < |ks| ==> ks[t] < n
  {
    if n == 0 then [] else TrackedOutputs(outs, vars, n - 1) + (if outs[n - 1] in vars then [n - 1] else [])
  }

  /** Only output positions naming a variable get a row. */
  lemma {:induction false} TrackedSound(outs: seq<string>, vars: seq<string>, n: nat, t: nat)
    requires n <= |outs| && t < |TrackedOutputs(outs, vars, n)|
    ensures outs[TrackedOutputs(outs, vars, n)[t]] in vars
  {
    if t < |TrackedOutputs(outs, vars, n - 1)| {
      TrackedSound(outs, vars, n - 1, t);
    }
  }

  /** Every output position naming a variable gets its row. */
  lemma {:induction false} TrackedComplete(outs: seq<string>, vars: seq<string>, n: nat, k: nat)
    requires k < n <= |outs| && outs[k] in vars
    ensures k in TrackedOutputs(outs, vars, n)
  {
    if k < n - 1 {
      TrackedComplete(outs, vars, n - 1, k);
    }
  }

  datatype System = System(rows: seq<seq<real>>, consts: seq<real>)

  /** `baseline_inputs` when it succeeds with one value per input; zeros otherwise (never used then). */
  ghost function BaselineOf(c: Constraint, nodes: Nodes): (bl: seq<real>)
    ensures |bl| == |c.inputs|
  {
    var b := Baseline(nodes, c.inputs);
    if b.Ok? && |b.value| == |c.inputs| then b.value else seq(|c.inputs|, i => 0.0)
  }

  /** Linearising constraint `c` raises nothing. */
  ghost predicate ConstraintOk(c: Constraint, nodes: Nodes, vars: seq<string>)
  {
    && Baseline(nodes, c.inputs).Ok?
    && var bl := BaselineOf(c, nodes);
       forall k :: 0 <= k < |c.outputs| && c.outputs[k] in vars ==> RowOk(c, bl, c.func(Nums(bl)), vars, k)
  }

  /** The exception linearising constraint `c` raises: the baseline's, else the first tracked output's. */
  ghost function ConstraintFault(c: Constraint, nodes: Nodes, vars: seq<string>): Option<Fault>
  {
    match Baseline(nodes, c.inputs)
    case Err(e) => Some(e)
    case Ok(_) =>
      var bl := BaselineOf(c, nodes);
      OutputFault(c, bl, c.func(Nums(bl)), vars, 0)
  }

  /** The first row fault among the tracked output positions from `k` on. */
  ghost function OutputFault(c: Constraint, bl: seq<real>, base: seq<Value>, vars: seq<string>, k: nat): Option<Fault>
    requires |bl| == |c.inputs| && k <= |c.outputs|
    decreases |c.outputs| - k
  {
    if k == |c.outputs| then None
    else if c.outputs[k] in vars && RowFault(c, bl, base, vars, k).Some? then RowFault(c, bl, base, vars, k)
    else OutputFault(c, bl, base, vars, k + 1)
  }

  /** The rows and constants of constraint `c`'s tracked outputs below `n`. */
  ghost function PartialSystem(c: Constraint, nodes: Nodes, vars: seq<string>, n: nat): (sys: System)
    requires n <= |c.outputs|
    ensures |sys.rows| == |sys.consts| == |TrackedOutputs(c.outputs, vars, n)|
  {
    var bl := BaselineOf(c, nodes);
    var base := c.func(Nums(bl));
    var ks := TrackedOutputs(c.outputs, vars, n);
    System(seq(|ks|, t requires 0 <= t < |ks| => RowSpec(c, bl, base, vars, ks[t])),
           seq(|ks|, t requires 0 <= t < |ks| => if Constant(base, ks[t]).Ok? then ConstSpec(c, bl, base, vars, ks[t]) else 0.0))
  }

  lemma PartialSystemStep(c: Constraint, nodes: Nodes, vars: seq<string>, n: nat)
    requires n < |c.outputs|
    ensures c.outputs[n] !in vars ==> PartialSystem(c, nodes, vars, n + 1) == PartialSystem(c, nodes, vars, n)
    ensures c.outputs[n] in vars && Constant(c.func(Nums(BaselineOf(c, nodes))), n).Ok? ==>
      var bl := BaselineOf(c, nodes);
      var base := c.func(Nums(bl));
      PartialSystem(c, nodes, vars, n + 1) ==
        System(PartialSystem(c, nodes, vars, n).rows + [RowSpec(c, bl, base, vars, n)],
               PartialSystem(c, nodes, vars, n).consts + [ConstSpec(c, bl, base, vars, n)])
  {
    var ks := TrackedOutputs(c.outputs, vars, n);
    assert forall t :: 0 <= t < |ks| ==> TrackedOutputs(c.outputs, vars, n + 1)[t] == ks[t];
  }

  /** One constraint's turn in `propagate`'s linearising loop: the baseline, then the loop over its tracked outputs. */
  method ConstraintSystem(c: Constraint, nodes: Nodes, vars: seq<string>) returns (r: Result<System, Fault>)
    requires StrictlySorted(vars)
    ensures r.Ok? <==> ConstraintOk(c, nodes, vars)
    ensures r.Ok? ==> r.value == PartialSystem(c, nodes, vars, |c.outputs|)
    ensures ConstraintFault(c, nodes, vars) == if r.Ok? then None else Some(r.error)
  {
    var baseline := Baseline(nodes, c.inputs);
    if baseline.Err? {
      return Err(baseline.error);
    }
    BaselineSpec(nodes, c.inputs);
    var bl := baseline.value;
    var base := c.func(Nums(bl));
    var rows: seq<seq<real>> := [];
    var consts: seq<real> := [];
    for k := 0 to |c.outputs|
      invariant System(rows, consts) == PartialSystem(c, nodes, vars, k)
      invariant forall j :: 0 <= j < k && c.outputs[j] in vars ==> RowOk(c, bl, base, vars, j)
      invariant OutputFault(c, bl, base, vars, k) == OutputFault(c, bl, base, vars, 0)
    {
      PartialSystemStep(c, nodes, vars, k);
      if c.outputs[k] !in vars {
        continue;
      }
      var row := BuildRow(c, bl, base, vars, k);
      if row.Err? {
        return Err(row.error);
      }
      rows := rows + [row.value.0];
      consts := consts + [row.value.1];
    }
    r := Ok(System(rows, consts));
  }

  /** The system of the component's first `m` constraints, rows in the order the loops produce them. */
  ghost function SystemOf(cs: seq<Constraint>, scc: seq<nat>, nodes: Nodes, vars: seq<string>, m: nat): System
    requires ValidScc(cs, scc) && m <= |scc|
  {
    if m == 0 then System([], [])
    else
      var prev := SystemOf(cs, scc, nodes, vars, m - 1);
      var own := PartialSystem(cs[scc[m - 1]], nodes, vars, |cs[scc[m - 1]].outputs|);
      System(prev.rows + own.rows, prev.consts + own.consts)
  }

  /** The number of rows of the component's first `m` constraints. */
  ghost function RowCount(cs: seq<Constraint>, scc: seq<nat>, vars: seq<string>, m: nat): nat
    requires ValidScc(cs, scc) && m <= |scc|
  {
    if m == 0 then 0
    else RowCount(cs, scc, vars, m - 1) + |TrackedOutputs(cs[scc[m - 1]].outputs, vars, |cs[scc[m - 1]].outputs|)|
  }

  lemma {:induction false} SystemOfCount(cs: seq<Constraint>, scc: seq<nat>, nodes: Nodes, vars: seq<string>, m: nat)
    requires ValidScc(cs, scc) && m <= |scc|
    ensures |SystemOf(cs, scc, nodes, vars, m).rows| == RowCount(cs, scc, vars, m)
  {
    if m > 0 {
      SystemOfCount(cs, scc, nodes, vars, m - 1);
      var c := cs[scc[m - 1]];
      var own := PartialSystem(c, nodes, vars, |c.outputs|);
      assert |own.rows| == |TrackedOutputs(c.outputs, vars, |c.outputs|)|;
      assert SystemOf(cs, scc, nodes, vars, m).rows == SystemOf(cs, scc, nodes, vars, m - 1).rows + own.rows;
    }
  }

  lemma {:induction false} RowCountAtLeast(cs: seq<Constraint>, scc: seq<nat>, vars: seq<string>, m: nat, j: nat)
    requires ValidScc(cs, scc) && j < m <= |scc|
    ensures RowCount(cs, scc, vars, m) >= |TrackedOutputs(cs[scc[j]].outputs, vars, |cs[scc[j]].outputs|)|
  {
    if j < m - 1 {
      RowCountAtLeast(cs, scc, vars, m - 1, j);
    }
  }

  lemma {:induction false} RowCountTracked(cs: seq<Constraint>, scc: seq<nat>, vars: seq<string>, m: nat)
    requires ValidScc(cs, scc) && m <= |scc| && RowCount(cs, scc, vars, m) > 0
    ensures |vars| > 0
  {
    var c := cs[scc[m - 1]];
    var ks := TrackedOutputs(c.outputs, vars, |c.outputs|);
    if |ks| > 0 {
      TrackedSound(c.outputs, vars, |c.outputs|, 0);
    } else {
      RowCountTracked(cs, scc, vars, m - 1);
    }
  }

  /**
    The component's system has a row exactly when it has a variable: each
    variable is some constraint's output, and each row is a variable's.
   */
  lemma RowsIffVariables(cs: seq<Constraint>, scc: seq<nat>, nodes: Nodes, vars: seq<string>)
    requires ValidScc(cs, scc) && forall o :: o in vars <==> o in VariableSet(cs, scc, nodes)
    ensures |SystemOf(cs, scc, nodes, vars, |scc|).rows| > 0 <==> |vars| > 0
  {
    SystemOfCount(cs, scc, nodes, vars, |scc|);
    if |vars| > 0 {
      assert vars[0] in VariableSet(cs, scc, nodes);
      var m :| 0 <= m < |scc| && scc[m] < |cs| && vars[0] in cs[scc[m]].outputs;
      var outs := cs[scc[m]].outputs;
      var k :| 0 <= k < |outs| && outs[k] == vars[0];
      TrackedComplete(outs, vars, |outs|, k);
      RowCountAtLeast(cs, scc, vars, |scc|, m);
    }
    if RowCount(cs, scc, vars, |scc|) > 0 {
      RowCountTracked(cs, scc, vars, |scc|);
    }
  }

  /** Linearising every constraint of the component raises nothing. */
  ghost predicate SystemOk(cs: seq<Constraint>, scc: seq<nat>, nodes: Nodes, vars: seq<string>, m: nat)
    requires ValidScc(cs, scc) && m <= |scc|
  {
    m == 0 || (SystemOk(cs, scc, nodes, vars, m - 1) && ConstraintOk(cs[scc[m - 1]], nodes, vars))
  }

  lemma {:induction false} SystemOkHas(cs: seq<Constraint>, scc: seq<nat>, nodes: Nodes, vars: seq<string>, n: nat, j: nat)
    requires ValidScc(cs, scc) && j < n <= |scc|
    ensures SystemOk(cs, scc, nodes, vars, n) ==> ConstraintOk(cs[scc[j]], nodes, vars)
  {
    if j < n - 1 {
      SystemOkHas(cs, scc, nodes, vars, n - 1, j);
    }
  }

  /** The exception linearising the component raises: that of its first constraint, in order, that raises one. */
  ghost function SystemFault(cs: seq<Constraint>, scc: seq<nat>, nodes: Nodes, vars: seq<string>, m: nat): Option<Fault>
    requires ValidScc(cs, scc) && m <= |scc|
    decreases |scc| - m
  {
    if m == |scc| then None
    else if ConstraintFault(cs[scc[m]], nodes, vars).Some? then ConstraintFault(cs[scc[m]], nodes, vars)
    else SystemFault(cs, scc, nodes, vars, m + 1)
  }

  /** `rows` and `constants` for the whole component, or the exception linearising raises. */
  method BuildSystem(cs: seq<Constraint>, scc: seq<nat>, nodes: Nodes, vars: seq<string>) returns (r: Result<System, Fault>)
    requires ValidScc(cs, scc) && StrictlySorted(vars)
    ensures r.Ok? <==> SystemOk(cs, scc, nodes, vars, |scc|)
    ensures r.Ok? ==> r.value == SystemOf(cs, scc, nodes, vars, |scc|)
    ensures SystemFault(cs, scc, nodes, vars, 0) == if r.Ok? then None else Some(r.error)
  {
    var rows: seq<seq<real>> := [];
    var consts: seq<real> := [];
    for m := 0 to |scc|
      invariant rows == SystemOf(cs, scc, nodes, vars, m).rows && consts == SystemOf(cs, scc, nodes, vars, m).consts
      invariant SystemOk(cs, scc, nodes, vars, m)
      invariant SystemFault(cs, scc, nodes, vars, m) == SystemFault(cs, scc, nodes, vars, 0)
    {
      var own := ConstraintSystem(cs[scc[m]], nodes, vars);
      if own.Err? {
        SystemOkHas(cs, scc, nodes, vars, |scc|, m);
        return Err(own.error);
      }
      rows := rows + own.value.rows;
      consts := consts + own.value.consts;
    }
    r := Ok(System(rows, consts));
  }
}
