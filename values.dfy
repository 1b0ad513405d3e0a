/**
  The values `ConstraintLattice` stores in its node map, and the constraints
  it registers. A Python node value is `None`, a number or anything else;
  numbers are modelled as reals.
 */
module Values {

  datatype Value = Unset | Num(r: real) | Opaque(text: string)

  /** `self.nodes`: node name to value. */
  type Nodes = map<string, Value>

  /**
    A registered constraint: the callable and its declared input and output
    names. The callable receives one value per input and yields one value per
    output position (a single non-tuple result stands for a one-element tuple).
   */
  datatype Constraint = Constraint(func: seq<Value> -> seq<Value>, inputs: seq<string>, outputs: seq<string>)

  /** The exceptions `propagate` lets escape. */
  datatype Fault =
    | KeyError(name: string)  // relaxation reads an input that is not a node
    | IndexError              // a constraint yields fewer values than it has outputs
    | TypeError               // `float(...)` or a subtraction on a value that is not a number

  /** `self.nodes.get(name)`: `None` for a missing node. */
  function Get(nodes: Nodes, name: string): (v: Value)
    ensures name !in nodes ==> v == Unset
    ensures name in nodes ==> v == nodes[name]
  {
    if name in nodes then nodes[name] else Unset
  }

  /** Every index of the component names a registered constraint. */
  predicate ValidScc(cs: seq<Constraint>, scc: seq<nat>)
  {
    forall m :: 0 <= m < |scc| ==> scc[m] < |cs|
  }

  /** The names `propagate` can write for the constraints `scc` picks out of `cs`. */
  ghost predicate OutputOf(cs: seq<Constraint>, scc: seq<nat>, name: string)
  {
    exists m {:trigger scc[m]} :: 0 <= m < |scc| && scc[m] < |cs| && name in cs[scc[m]].outputs
  }
}
