# constraint-lattice in Dafny

This project models two parts of constraint-lattice.

The first is the propagation solver `ConstraintLattice` (`constraint_lattice_core.py`). It holds:
- a map from node names to values (unset, numeric or opaque);
- an ordered list of constraints. Each constraint is a function from input values to output values, with named inputs and outputs.

`propagate` works in four steps:
1. It builds a graph over constraint indices, with an edge i→j when an output of i is an input of j.
2. It splits that graph into strongly connected components with Tarjan's algorithm. It then reverses the list, so that producers come before consumers.
3. For each component it tries an exact solve. It linearises the component's constraints by unit finite differences and accepts the solution only when the system has full rank.
4. Otherwise it relaxes the component with a damped update until a pass changes nothing, a whole-map state repeats, or 1000 passes have run. It then rounds every numeric node to 6 decimal places.

The second is the pure configuration logic of the loader (`src/constraint_lattice/engine/loader.py`):
- splitting class names;
- normalising parameters;
- reading profile entries, with the search fallback over extra modules;
- merging included constraint files;
- repairing backslash escapes before YAML parsing.

## Layout

| file | module | contents |
|---|---|---|
| wrappers.dfy | Wrappers | `Option`, `Result` |
| values.dfy | Values | node values, constraints, faults, and the names a component writes |
| graph.dfy | Graph | the constraint graph as a map of successor sets; reachability |
| depgraph.dfy | DependencyGraph | the two graph-building loops of `propagate` |
| tarjan.dfy | Tarjan | `_tarjan_scc`, with a proof that it returns exactly the strongly connected components in reverse topological order |
| order.dfy | Order | string order and `sorted` on a set of names |
| rounding.dfy | Rounding | `round(x, 6)`: round half to even at six decimals |
| linear.dfy | Linear | the variables and the linearised rows of the exact solve |
| relax.dfy | Relaxation | the update rule, one relaxation pass, and the relaxation loop |
| solver.dfy | Solver | one component: exact solve or relaxation, then rounding |
| lattice.dfy | Lattice | class `ConstraintLattice` |
| loader.dfy | Loader | the configuration logic |

### Modelling choices
- **Values:** `Unset | Num(real) | Opaque(string)`. Python floats become reals.
- **Constraint functions:** arbitrary total functions `seq<Value> -> seq<Value>`. An output list that is too short is an `IndexError`, as Python's tuple indexing raises one.
- **Linear algebra:** `np.linalg.matrix_rank` and `np.linalg.lstsq` are the parameter `Solver.LinAlg`. A `None` answer from `lstsq` stands for `LinAlgError`.
- **Dictionary order:** the keys of the constraint graph are visited in ascending index order, which is their insertion order. Successor sets are visited in an unspecified order, chosen with `:|`. Every property proved about Tarjan's algorithm holds for any order.
- **Class lookup:** `importlib.import_module` followed by `getattr` becomes the parameter `resolve`.
- **Loader output:** a loaded constraint is recorded as the class plus the arguments it would be built with.

### Behaviour of `propagate` worth knowing
- **Order within a component:** `propagate` relaxes a component's constraints in the order Tarjan's stack pops them (`constraint_lattice_core.py:220-226`). That is not always their registration order.
- **Partial updates:** `propagate` can fail part-way through. A missing input during relaxation, or a non-numeric value met by `float` during linearisation, raises straight out of it. The nodes keep every update made up to that point (`Lattice.ConstraintLattice.Propagate` returns that fault).
- **Rounding:** only the relaxation path rounds every numeric node. The exact path rounds only the variables it writes. So when every component solves exactly, other numeric nodes keep their unrounded values.

## Model

| member | source | states |
|---|---|---|
| Lattice.ConstraintLattice.constructor | constraint_lattice_core.py:23-25 | a new lattice has no nodes and no constraints |
| Lattice.ConstraintLattice.AddNode | constraint_lattice_core.py:27-29 | the node is set to the value, replacing any earlier one; the value defaults to unset; constraints are untouched |
| Lattice.ConstraintLattice.AddConstraint | constraint_lattice_core.py:31-43 | the constraint is appended after all earlier ones; nodes are untouched |
| Lattice.ConstraintLattice.Propagate | constraint_lattice_core.py:48-190 | constraints are unchanged; no node disappears; a node that no evaluated constraint writes ends with its old value or its rounded old value |
| Lattice.ComponentsLinked | constraint_lattice_core.py:55-61 | every member of a component Tarjan returns is a constraint with at least one edge |
| Lattice.SettledStep | constraint_lattice_core.py:67-190 | solving one more component keeps the property `Propagate` promises |
| DependencyGraph.BuildDepGraph | constraint_lattice_core.py:50-53 | the map sends every name to exactly the indices of the constraints that read it |
| DependencyGraph.BuildConstraintGraph | constraint_lattice_core.py:55-59 | i→j is an edge exactly when an output of constraint i is an input of constraint j; keys have non-empty successor sets; keys come in ascending order |
| DependencyGraph.AddDependents | constraint_lattice_core.py:57-59 | adding one output's readers extends only that constraint's successor set |
| DependencyGraph.SearchedIffLinked | constraint_lattice_core.py:55-59 | a constraint is a node of the graph exactly when it feeds or is fed by some constraint; isolated constraints are not nodes |
| DependencyGraph.SelfLoop | constraint_lattice_core.py:55-59 | a constraint has a self-loop exactly when it reads one of its own outputs |
| Graph.VerticesAreEdgeEnds | constraint_lattice_core.py:211-230 | without empty successor sets, the nodes the search can meet are exactly the ends of edges |
| Tarjan.TarjanScc | constraint_lattice_core.py:195-232 | the result covers exactly the graph's nodes; components are disjoint, non-empty and repetition-free; edges never lead to a later component; each component is strongly connected |
| Tarjan.StrongConnect | constraint_lattice_core.py:203-226 | a search from an unvisited node numbers it with the next index and keeps the search invariant; afterwards the node is either still on the stack, with a smaller lowlink that it reaches on the stack, or off the stack with its component emitted |
| Tarjan.VisitSuccessor | constraint_lattice_core.py:211-216 | one successor step keeps the invariant and the lowlink bounds |
| Tarjan.VisitChild | constraint_lattice_core.py:212-214 | an unvisited successor is searched and its lowlink is folded in |
| Tarjan.ChildLowlink | constraint_lattice_core.py:214 | the lowlink becomes the minimum of its own lowlink and the child's |
| Tarjan.PopComponent | constraint_lattice_core.py:218-226 | a root pops its component and emits it; the search invariant still holds |
| Tarjan.PopUntil | constraint_lattice_core.py:220-225 | the pop loop removes exactly the stack above and including the root, in pop order, and clears their on-stack flags |
| Tarjan.SameSccIffMutual | constraint_lattice_core.py:195-232 | two constraints share a component exactly when each reaches the other |
| Tarjan.EdgeOrder | constraint_lattice_core.py:211-226 | an edge between two components leads to one emitted earlier |
| Tarjan.Reversed | constraint_lattice_core.py:61 | the reversed list has the same length, with element k taken from position length-1-k |
| Tarjan.ReversedOrder | constraint_lattice_core.py:61 | after reversal, every edge goes from a component to the same one or a later one (producer before consumer) |
| Order.LessTransitive | constraint_lattice_core.py:69-76 | the string order used by `sorted` is transitive |
| Order.LessTotal | constraint_lattice_core.py:69-76 | any two strings are equal or ordered one way |
| Order.Sort | constraint_lattice_core.py:69-76 | the result is strictly ascending and holds exactly the given names |
| Order.SortedUnique | constraint_lattice_core.py:69-76 | two strictly ascending lists with the same elements are equal, so the variable order is determined |
| Linear.VariableSet | constraint_lattice_core.py:69-76 | a name is a variable exactly when it is already a node and an output of a constraint of the component |
| Linear.PositionUnique | constraint_lattice_core.py:77 | in the sorted variable list a variable's position is its index |
| Linear.Baseline | constraint_lattice_core.py:87-89 | the baseline has one float per input, or fails with TypeError |
| Linear.Float | constraint_lattice_core.py:87-89 | a missing name reads as 0.0; a number reads as itself; an unset or opaque value fails with TypeError |
| Linear.BaselineSpec | constraint_lattice_core.py:87-89 | the baseline succeeds exactly when every input reads as a float, and then holds those floats in input order |
| Linear.Delta | constraint_lattice_core.py:104-111 | the delta exists exactly when the perturbed and the baseline output at that position both exist and are numeric, and then the perturbed output is the baseline plus the delta; a perturbed output that is too short is IndexError, any other failure TypeError |
| Linear.Constant | constraint_lattice_core.py:99 | an output is usable as a constant exactly when it exists and is numeric |
| Linear.RowShape | constraint_lattice_core.py:97-98 | a variable the constraint does not read has coefficient 1 if it is the row's output, else 0 |
| Linear.BuildRow | constraint_lattice_core.py:94-116 | the row loop succeeds exactly when the baseline output and every perturbed output for a variable input are numeric; the row and constant are then the finite-difference row and constant; otherwise the fault is the constant's, else that of the first variable input whose delta fails |
| Linear.TrackedSound | constraint_lattice_core.py:94-96 | every output that gets a row is a variable |
| Linear.TrackedComplete | constraint_lattice_core.py:94-96 | every output that is a variable gets a row |
| Linear.ConstraintSystem | constraint_lattice_core.py:84-116 | one constraint's rows are built exactly when the baseline and every variable output's row succeed, and are then the per-output specification's rows; otherwise the fault is the baseline's, else that of the first variable output whose row fails |
| Linear.RowsIffVariables | constraint_lattice_core.py:82-118 | the system has rows exactly when there are variables |
| Linear.BuildSystem | constraint_lattice_core.py:83-116 | the component's system succeeds exactly when every constraint's does, and is the concatenation of their rows in component order; otherwise the fault is that of the first constraint, in component order, that fails |
| Rounding.NearestInt | constraint_lattice_core.py:188-190 | the nearest integer, with ties going to the even one |
| Rounding.Round6 | constraint_lattice_core.py:188-190 | the result has at most six decimals and lies within half a millionth of the input |
| Rounding.Round6Idempotent | constraint_lattice_core.py:188-190 | rounding a rounded number changes nothing |
| Rounding.RoundValue | constraint_lattice_core.py:188-190 | numbers are rounded; unset and opaque values are left alone |
| Rounding.RoundValueIdempotent | constraint_lattice_core.py:188-190 | rounding a node value twice is rounding it once |
| Rounding.RoundAll | constraint_lattice_core.py:188-190 | keys are kept, every value is rounded, and the result is fully rounded |
| Solver.WriteSolution | constraint_lattice_core.py:126-127 | every variable holds its rounded solution value; no other node changes |
| Solver.Accept | constraint_lattice_core.py:118-132 | the solution is accepted exactly when there are rows, the rank equals the number of variables, and least squares returns a solution of that size |
| Solver.SolveScc | constraint_lattice_core.py:69-190 | the exact path is taken exactly when there are variables, linearising succeeds and the linear algebra accepts the system, and then only the variables change, to their rounded solution values; when linearising fails, nothing changes and the first constraint's fault is returned; otherwise the relaxation loop ran to its first exit, and the result is the map after that many passes, unrounded if the last pass raised its fault, else with every numeric node rounded; keys are kept |
| Relaxation.Update | constraint_lattice_core.py:159-183 | a non-numeric old value is overwritten exactly when the new value differs; two numbers store the midpoint exactly when it moves more than 1e-6; a number is overwritten by a non-number; every store changes the value |
| Relaxation.StoreOutputsFault | constraint_lattice_core.py:158-183 | the output loop raises exactly when the constraint yields fewer values than it has outputs, and then IndexError; the changed flag is never reset and no node is removed |
| Relaxation.ApplyFault | constraint_lattice_core.py:153-183 | a constraint's turn raises exactly when an input is not a node or it yields too few values; the changed flag is never reset and no node is removed |
| Relaxation.ReadInputsSpec | constraint_lattice_core.py:154 | reading inputs succeeds exactly when every input is a node; otherwise it fails with KeyError for the first missing one |
| Relaxation.StoreOutputsWrites | constraint_lattice_core.py:158-183 | the output loop writes only the constraint's outputs; if it reports no change the map is unchanged |
| Relaxation.PassWritesAll | constraint_lattice_core.py:152-183 | a pass writes only names the component outputs and keeps every key; a pass that reports no change leaves the map as it was |
| Relaxation.IterateWrites | constraint_lattice_core.py:139-186 | any number of passes writes only the component's outputs |
| Relaxation.StoreLoop | constraint_lattice_core.py:158-183 | the output loop computes the output-loop specification |
| Relaxation.RelaxPass | constraint_lattice_core.py:150-183 | the pass loop computes one pass of the specification |
| Relaxation.Relax | constraint_lattice_core.py:137-186 | the result is the map after the number of passes returned, and that number and the reason equal the loop's reference exit `ExitFrom` |
| Relaxation.ExitFromStopped | constraint_lattice_core.py:139-186 | from any point the loop reaches with every pass so far progressing and no map repeated, the exit it goes to is a first exit |
| Relaxation.RelaxExitStopped | constraint_lattice_core.py:139-186 | the loop's exit is its first: no earlier map repeats and every earlier pass raised nothing and stored something; a repeat is the map after a progressing pass being one seen before; the limit is 1000 progressing passes with all maps distinct; a stable or failed stop is a pass that stored nothing or raised |
| Relaxation.StoppedUnique | constraint_lattice_core.py:139-186 | at most one pair of pass count and reason is a first exit, so the exit depends only on the component and the starting map |
| Relaxation.EarlierSpec | constraint_lattice_core.py:137-144 | when the loop checks the map after n passes, `seen_states` holds exactly the maps after fewer than n passes |
| Relaxation.DistinctPair | constraint_lattice_core.py:140-143 | while no map has repeated, the maps after any two different pass counts differ |
| Relaxation.ProgressedEach | constraint_lattice_core.py:152-186 | progress over n passes means each of those passes raised nothing and stored something |
| Loader.RSplit | src/constraint_lattice/engine/loader.py:37 | the name is the module, a dot and the class, and the class has no dot |
| Loader.SplitClassName | src/constraint_lattice/engine/loader.py:34-37 | a dotless name lives in `constraint_lattice.constraints`; otherwise the split is the one at the last dot |
| Loader.SplitQualified | src/constraint_lattice/engine/loader.py:34-37 | qualifying a dotless class with a module splits back into that module and class |
| Loader.LoadClass | src/constraint_lattice/engine/loader.py:33-41 | the class loads exactly when the lookup of its split finds it; otherwise ImportError |
| Loader.SearchSpec | src/constraint_lattice/engine/loader.py:144-151 | the search succeeds exactly when some module holds the class, and then takes it from the first such module |
| Loader.Resolution | src/constraint_lattice/engine/loader.py:139-153 | a failure is the original ImportError; a direct hit or a dotted name is the direct result |
| Loader.FallbackFinds | src/constraint_lattice/engine/loader.py:139-153 | a dotless name that fails directly resolves exactly when some search module holds it, from the first such module |
| Loader.ResolveClass | src/constraint_lattice/engine/loader.py:139-153 | the search loop computes the resolution |
| Loader.NormalisedParams | src/constraint_lattice/engine/loader.py:44-61 | an empty or missing mapping gives no arguments; bad `args` or `kwargs` give TypeError, with `args` checked first; otherwise the positional arguments are `args`, and the keywords are `kwargs` plus every other top-level key, with top-level keys winning |
| Loader.NormaliseParams | src/constraint_lattice/engine/loader.py:44-61 | the pop-and-update steps compute the normalised parameters |
| Loader.EntryOf | src/constraint_lattice/engine/loader.py:127-137 | a string entry names a class with empty parameters; a mapping needs `class` (else KeyError) and defaults its parameters to empty; any other entry is a ValueError |
| Loader.LoadEntry | src/constraint_lattice/engine/loader.py:127-154 | an entry loads exactly when its shape, its class and its parameters all succeed; a failure is the shape error if there is one, else the resolution error, else the parameter error; a string entry has no arguments |
| Loader.LoadProfile | src/constraint_lattice/engine/loader.py:120-157 | a missing profile is a ValueError; otherwise every entry loads in order, or the first failing entry's error is returned |
| Loader.DistinctSpec | src/constraint_lattice/engine/loader.py:209-213 | deduplication keeps every name, adds none and repeats none |
| Loader.Kept | src/constraint_lattice/engine/loader.py:209-212 | a name is kept exactly when it occurs; the kept constraint has that name |
| Loader.IndexByName | src/constraint_lattice/engine/loader.py:209 | the dictionary's keys are the local names in first-occurrence order, each holding the last local constraint of that name |
| Loader.AddIncluded | src/constraint_lattice/engine/loader.py:210-212 | new included names are appended in order with their first constraint; present names are untouched |
| Loader.MergeIncludes | src/constraint_lattice/engine/loader.py:200-213 | with includes, the names are the deduplicated local names followed by the new included names; each keeps its last local constraint, else its first included one; without includes, the local list is returned unchanged |
| Loader.Sanitise | src/constraint_lattice/engine/loader.py:160-173 | the left-to-right scan of the pattern: a backslash followed by a character outside the escape set becomes two backslashes and that character, and the scan resumes after it; the repaired text is at least as long as the input, at most half as long again, and ends with the same character |
| Loader.SanitiseLength | src/constraint_lattice/engine/loader.py:160-173 | the text grows by exactly one character per match |
| Loader.SanitiseUnchanged | src/constraint_lattice/engine/loader.py:160-173 | the text is unchanged exactly when the pattern never matches |
| Loader.NoBackslashNoMatch | src/constraint_lattice/engine/loader.py:160-173 | text without a backslash is left alone |
| Loader.EscapedBackslashBroken | src/constraint_lattice/engine/loader.py:160-173 | the valid escape sequence `\\d` is rewritten to `\\\d`, whose `\d` is invalid |
| Loader.SanitiseFixed | src/constraint_lattice/engine/loader.py:160-173 | the corrected repair: after it, every escape is valid |
| Loader.SanitiseFixedKeepsValid | src/constraint_lattice/engine/loader.py:160-173 | the corrected repair leaves text whose escapes are already valid unchanged |
| Loader.SanitiseFixedIdempotent | src/constraint_lattice/engine/loader.py:160-173 | repairing twice is repairing once |

## Left out

- `np.linalg.matrix_rank` and `np.linalg.lstsq` are floating-point library code. They are the oracle `Solver.LinAlg`, and `LinAlgError` is its `None`.
- IEEE-754 arithmetic is modelled with reals. `round(x, 6)` is exact round-half-to-even on reals, not on binary floats.
- Python's `Number` test also accepts booleans and complex numbers. The model has only `Num`.
- `float()` of a string node would parse it. The model treats every opaque value as a `TypeError`.
- An exception raised inside a constraint function is not modelled: constraint functions are total.
- Logging calls are left out.
- The order Python gives to set iteration (successors in `_tarjan_scc`) is chosen arbitrarily. Every property proved holds for any choice.
- `seen_states` holds `tuple(sorted(self.nodes.items()))`. The sort itself cannot fail, because the keys are distinct strings. But `state_key in seen_states` (`constraint_lattice_core.py:139-140`) hashes the tuple. So an unhashable value such as a list or a dict in any node of the lattice, not only in the component, makes every component that reaches relaxation raise `TypeError`. `Opaque(string)` values are always comparable, so the model compares whole maps and never raises there: unhashable node values are not modelled.
- Lattice.ConstraintLattice.Propagate: its contract states the write-set and key preservation, not the final values. `Solver.SolveScc` pins the values one component at a time; the contract does not chain them across the components.
- Tarjan.StrongConnect: the search recurses without bound. Python's `strongconnect` recurses once per node on a search path, so a dependency chain deeper than the interpreter's recursion limit (1000 frames by default) raises `RecursionError`. The model does not produce that error.
- Loader.NormalisedParams: a truthy `params` value that is not a mapping is modelled as a `TypeError`. Python's `dict()` would accept a list of pairs and raise `ValueError` on a string.
- Loader.EntryOf: a `class` value that is not a string is modelled as a `TypeError`. Python raises that only for some types.
- Module import and attribute lookup are the `resolve` parameter, so the messages of the `ImportError` are not modelled.
- File I/O, `yaml.safe_load`, `json.load`, the empty-file shortcut of `_load_yaml`, the file-extension dispatch and `os.path` resolution are left out. So is reading included files recursively: the included constraints are a parameter.
- `_instantiate_constraint` and `_wrap_for_engine` are left out. They do class instantiation, `functools.partial` and the optional JAX wrapping. `Loader.Loaded` records the class and its arguments instead, and the `engine` hint is not read.
- `search_modules or []` is not modelled: the search modules are a plain list, and an absent list is the empty list.
- A configuration without `profiles` would raise a `KeyError`; the profiles are a parameter.
- Loader.LoadProfile: every profile's value is a list of entries. In Python a profile key with nothing under it loads as `None`, and `for entry in raw_entries` (`src/constraint_lattice/engine/loader.py:126`) raises `TypeError` on it or on a number. A mapping would be iterated by its keys and a string by its characters, each taken as an entry. None of these cases is modelled.
- SHA-256 hashing of constraints (`src/constraint_lattice/engine/loader.py:216-218`) is left out.
- Nothing in the model calls the escape repair, because YAML parsing is left out. `Loader.SanitiseFixed` is the repair the model offers in its place.

## Findings

| source | as written | input that shows it | evidently intended | confidence | as-written member | corrected member |
|---|---|---|---|---|---|---|
| src/constraint_lattice/engine/loader.py:160-173 | The pattern matches a backslash followed by a character outside the escape set, but it does not consume an escaped backslash `\\` as a pair. A scan that skips the first backslash of `\\` can match the second one together with the next character. | The double-quoted YAML text `\\d` (an escaped backslash, then `d`) becomes `\\\d`, and `\d` is not a valid YAML escape. | Copy `\\` pairs unchanged, so that only invalid escapes are doubled and text with valid escapes is left alone. | medium; not executed | Loader.EscapedBackslashBroken | Loader.SanitiseFixed |
