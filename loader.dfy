/**
  The configuration loader: resolving constraint class names, splitting
  profile parameters into positional and keyword arguments, reading the
  entries of a profile, merging included constraint files and repairing
  backslash escapes before YAML parsing. Module imports, reading files,
  YAML/JSON parsing and building the constraint objects are left to the
  caller: the class lookup is the `resolve` parameter.
 */
module Loader {
  import opened Wrappers

  /** A parsed YAML/JSON value. */
  datatype Data = Null | Flag(b: bool) | Number(r: real) | Text(s: string) | Items(items: seq<Data>) | Table(entries: map<string, Data>)

  datatype LoadError = ImportError(name: string) | TypeError(message: string) | ValueError(message: string) | KeyError(key: string)

  // ---------------------------------------------------------------------
  // load_constraint_class
  // ---------------------------------------------------------------------

  const DefaultModule := "constraint_lattice.constraints"

  /** `name.rsplit(".", 1)` for a name that has a dot. */
  function RSplit(name: string): (r: (string, string))
    requires '.' in name
    ensures r.0 + "." + r.1 == name && '.' !in r.1
  {
    if name[|name| - 1] == '.' then (name[..|name| - 1], "")
    else
      var (m, c) := RSplit(name[..|name| - 1]);
      assert m + "." + c + [name[|name| - 1]] == name;
      (m, c + [name[|name| - 1]])
  }

  /** The (module, class) pair a class name denotes: a dotless name lives in the default module. */
  function SplitClassName(name: string): (r: (string, string))
    ensures '.' !in name ==> r == (DefaultModule, name)
    ensures '.' in name ==> r.0 + "." + r.1 == name && '.' !in r.1
  {
    if '.' !in name then (DefaultModule, name) else RSplit(name)
  }

  /** Qualifying a dotless class name with a module splits back into that module and class. */
  lemma SplitQualified(m: string, c: string)
    requires '.' !in c
    ensures SplitClassName(m + "." + c) == (m, c)
  {
    var s := m + "." + c;
    var r := SplitClassName(s);
    assert s == r.0 + "." + r.1;
    assert s[|m|] == '.' && forall j :: |m| < j < |s| ==> s[j] == c[j - |m| - 1];
    assert s[|r.0|] == '.' && forall j :: |r.0| < j < |s| ==> s[j] == r.1[j - |r.0| - 1];
    assert |r.0| == |m|;
    assert r.1 == s[|m| + 1..] == c;
    assert r.0 == s[..|m|] == m;
  }

  /** `load_constraint_class`: a failed module import or attribute lookup becomes an ImportError. */
  function LoadClass<C>(resolve: (string, string) -> Option<C>, name: string): (r: Result<C, LoadError>)
    ensures r.Ok? <==> resolve(SplitClassName(name).0, SplitClassName(name).1).Some?
    ensures r.Ok? ==> Some(r.value) == resolve(SplitClassName(name).0, SplitClassName(name).1)
    ensures r.Err? ==> r.error == ImportError(name)
  {
    var (m, c) := SplitClassName(name);
    match resolve(m, c)
    case Some(cls) => Ok(cls)
    case None => Err(ImportError(name))
  }

  // ---------------------------------------------------------------------
  // The search fallback of load_constraints_from_yaml
  // ---------------------------------------------------------------------

  /** The first of `modules` in which `name` loads. */
  function Search<C>(resolve: (string, string) -> Option<C>, modules: seq<string>, name: string): (r: Option<C>)
  {
    if modules == [] then None
    else
      match LoadClass(resolve, modules[0] + "." + name)
      case Ok(cls) => Some(cls)
      case Err(_) => Search(resolve, modules[1..], name)
  }

  /** The search succeeds exactly when some module holds the class, and then yields it from the first such module. */
  lemma {:induction false} SearchSpec<C>(resolve: (string, string) -> Option<C>, modules: seq<string>, name: string)
    ensures Search(resolve, modules, name).Some? <==>
              exists k :: 0 <= k < |modules| && LoadClass(resolve, modules[k] + "." + name).Ok?
    ensures Search(resolve, modules, name).Some? ==>
              exists k :: 0 <= k < |modules| && LoadClass(resolve, modules[k] + "." + name) == Ok(Search(resolve, modules, name).value) &&
                forall j :: 0 <= j < k ==> LoadClass(resolve, modules[j] + "." + name).Err?
  {
    if modules != [] {
      SearchSpec(resolve, modules[1..], name);
      if LoadClass(resolve, modules[0] + "." + name).Err? {
        forall k | 0 < k < |modules|
          ensures LoadClass(resolve, modules[k] + "." + name) == LoadClass(resolve, modules[1..][k - 1] + "." + name)
        {
        }
        if Search(resolve, modules, name).Some? {
          var k :| 0 <= k < |modules[1..]| && LoadClass(resolve, modules[1..][k] + "." + name) == Ok(Search(resolve, modules, name).value) &&
                   forall j :: 0 <= j < k ==> LoadClass(resolve, modules[1..][j] + "." + name).Err?;
          assert LoadClass(resolve, modules[k + 1] + "." + name) == Ok(Search(resolve, modules, name).value);
        }
      }
    }
  }

  /**
    How an entry's class is found: the name itself, then, for a dotless name,
    each search module in order; when all fail, the first error is raised.
   */
  function Resolution<C>(resolve: (string, string) -> Option<C>, name: string, modules: seq<string>): (r: Result<C, LoadError>)
    ensures r.Err? ==> r == LoadClass(resolve, name)
    ensures LoadClass(resolve, name).Ok? || '.' in name ==> r == LoadClass(resolve, name)
  {
    var direct := LoadClass(resolve, name);
    if direct.Ok? || '.' in name then direct
    else
      match Search(resolve, modules, name)
      case Some(cls) => Ok(cls)
      case None => direct
  }

  /** A dotless name that does not load directly resolves as soon as one search module holds it, from the first such module. */
  lemma FallbackFinds<C>(resolve: (string, string) -> Option<C>, name: string, modules: seq<string>)
    requires '.' !in name && LoadClass(resolve, name).Err?
    ensures Resolution(resolve, name, modules).Ok? <==> exists k :: 0 <= k < |modules| && resolve(modules[k], name).Some?
    ensures Resolution(resolve, name, modules).Ok? ==>
              exists k :: 0 <= k < |modules| && resolve(modules[k], name) == Some(Resolution(resolve, name, modules).value) &&
                forall j :: 0 <= j < k ==> resolve(modules[j], name).None?
  {
    SearchSpec(resolve, modules, name);
    forall k | 0 <= k < |modules| ensures SplitClassName(modules[k] + "." + name) == (modules[k], name) {
      SplitQualified(modules[k], name);
    }
  }

  /** The loop of the search fallback. */
  method ResolveClass<C>(resolve: (string, string) -> Option<C>, name: string, modules: seq<string>) returns (r: Result<C, LoadError>)
    ensures r == Resolution(resolve, name, modules)
  {
    r := LoadClass(resolve, name);
    if r.Err? && '.' !in name {
      for i := 0 to |modules|
        invariant Search(resolve, modules, name) == Search(resolve, modules[i..], name)
      {
        assert modules[i..][1..] == modules[i + 1..];
        var attempt := LoadClass(resolve, modules[i] + "." + name);
        if attempt.Ok? {
          return attempt;
        }
      }
    }
  }

  // ---------------------------------------------------------------------
  // _normalise_params
  // ---------------------------------------------------------------------

  const ArgsMessage := "'args' parameter must be a list or tuple"
  const KwargsMessage := "'kwargs' parameter must be a mapping"
  const ParamsMessage := "'params' must be a mapping"

  /** Python's truth value of a YAML value is false. */
  predicate Falsy(d: Data)
  {
    d == Null || d == Flag(false) || d == Number(0.0) || d == Text("") || d == Items([]) || d == Table(map[])
  }

  /**
    The positional and keyword arguments a parameter mapping stands for:
    `args` and `kwargs` are taken out, and every other top-level key is
    added to the keywords, overriding `kwargs`.
   */
  function NormalisedParams(params: Data): (r: Result<(seq<Data>, map<string, Data>), LoadError>)
    ensures Falsy(params) ==> r == Ok(([], map[]))
    ensures !Falsy(params) && !params.Table? ==> r == Err(TypeError(ParamsMessage))
    ensures !Falsy(params) && params.Table? ==>
              var p := params.entries;
              && (r.Err? <==> ("args" in p && !p["args"].Items?) || ("kwargs" in p && !p["kwargs"].Table?))
              && (r.Err? ==> r.error == TypeError(if "args" in p && !p["args"].Items? then ArgsMessage else KwargsMessage))
              && (r.Ok? ==> r.value.0 == if "args" in p then p["args"].items else [])
              && (r.Ok? ==> forall k :: k in r.value.1 <==>
                                (k in p && k != "args" && k != "kwargs") || ("kwargs" in p && k in p["kwargs"].entries))
              && (r.Ok? ==> forall k :: k in p && k != "args" && k != "kwargs" ==> r.value.1[k] == p[k])
              && (r.Ok? ==> forall k :: "kwargs" in p && k in p["kwargs"].entries && (k !in p || k == "args" || k == "kwargs") ==>
                                r.value.1[k] == p["kwargs"].entries[k])
  {
    if Falsy(params) then Ok(([], map[]))
    else if !params.Table? then Err(TypeError(ParamsMessage))
    else
      var p := params.entries;
      var args := if "args" in p then p["args"] else Items([]);
      var kwargs := if "kwargs" in p then p["kwargs"] else Table(map[]);
      if !args.Items? then Err(TypeError(ArgsMessage))
      else if !kwargs.Table? then Err(TypeError(KwargsMessage))
      else Ok((args.items, kwargs.entries + (p - {"args", "kwargs"})))
  }

  /** `_normalise_params`: pops `args` and `kwargs` from a copy of the mapping, then updates the keywords with the rest. */
  method NormaliseParams(params: Data) returns (r: Result<(seq<Data>, map<string, Data>), LoadError>)
    ensures r == NormalisedParams(params)
  {
    if Falsy(params) {
      return Ok(([], map[]));
    }
    if !params.Table? {
      return Err(TypeError(ParamsMessage));
    }
    var copy := params.entries;
    var args := Items([]);
    if "args" in copy {
      args := copy["args"];
      copy := copy - {"args"};
    }
    var kwargs := Table(map[]);
    if "kwargs" in copy {
      kwargs := copy["kwargs"];
      copy := copy - {"kwargs"};
    }
    if !args.Items? {
      return Err(TypeError(ArgsMessage));
    }
    if !kwargs.Table? {
      return Err(TypeError(KwargsMessage));
    }
    assert copy == params.entries - {"args", "kwargs"};
    var kw := kwargs.entries;
    kw := kw + copy;
    return Ok((args.items, kw));
  }

  // ---------------------------------------------------------------------
  // The entries of a profile
  // ---------------------------------------------------------------------

  const EntryMessage := "Invalid entry type in profile"
  const ClassMessage := "'class' must be a string"

  /** An entry's class name and raw parameters: a string names a class with no parameters, a mapping must have `class`. */
  function EntryOf(d: Data): (r: Result<(string, Data), LoadError>)
    ensures d.Text? ==> r == Ok((d.s, Table(map[])))
    ensures !d.Text? && !d.Table? ==> r == Err(ValueError(EntryMessage))
    ensures d.Table? ==>
              && ("class" !in d.entries ==> r == Err(KeyError("class")))
              && (r.Ok? <==> "class" in d.entries && d.entries["class"].Text?)
              && (r.Ok? ==> r.value.0 == d.entries["class"].s)
              && (r.Ok? ==> r.value.1 == if "params" in d.entries then d.entries["params"] else Table(map[]))
  {
    match d
    case Text(name) => Ok((name, Table(map[])))
    case Table(m) =>
      if "class" !in m then Err(KeyError("class"))
      else if !m["class"].Text? then Err(TypeError(ClassMessage))
      else Ok((m["class"].s, if "params" in m then m["params"] else Table(map[])))
    case _ => Err(ValueError(EntryMessage))
  }

  /** A loaded constraint: the class (or callable) found and the arguments it is built with. */
  datatype Loaded<C> = Loaded(target: C, args: seq<Data>, kwargs: map<string, Data>)

  /** One entry of a profile: its shape, then its class, then its parameters, each of which may fail. */
  function LoadEntry<C>(resolve: (string, string) -> Option<C>, d: Data, modules: seq<string>): (r: Result<Loaded<C>, LoadError>)
    ensures r.Ok? <==> EntryOf(d).Ok? && Resolution(resolve, EntryOf(d).value.0, modules).Ok? &&
                       NormalisedParams(EntryOf(d).value.1).Ok?
    ensures r.Ok? ==> r.value.target == Resolution(resolve, EntryOf(d).value.0, modules).value &&
                      (r.value.args, r.value.kwargs) == NormalisedParams(EntryOf(d).value.1).value
    ensures d.Text? && r.Ok? ==> r.value.args == [] && r.value.kwargs == map[]
    ensures EntryOf(d).Err? ==> r == Err(EntryOf(d).error)
    ensures EntryOf(d).Ok? && Resolution(resolve, EntryOf(d).value.0, modules).Err? ==>
              r == Err(Resolution(resolve, EntryOf(d).value.0, modules).error)
    ensures EntryOf(d).Ok? && Resolution(resolve, EntryOf(d).value.0, modules).Ok? && NormalisedParams(EntryOf(d).value.1).Err? ==>
              r == Err(NormalisedParams(EntryOf(d).value.1).error)
  {
    match EntryOf(d)
    case Err(e) => Err(e)
    case Ok((name, params)) =>
      match Resolution(resolve, name, modules)
      case Err(e) => Err(e)
      case Ok(cls) =>
        match NormalisedParams(params)
        case Err(e) => Err(e)
        case Ok((args, kwargs)) => Ok(Loaded(cls, args, kwargs))
  }

  const ProfileMessage := "Profile not found in configuration"

  /**
    `load_constraints_from_yaml` after the file is read: the profile must
    exist, and its entries load in order; the first entry that fails ends
    the load with its error.
   */
  method LoadProfile<C>(resolve: (string, string) -> Option<C>, profiles: map<string, seq<Data>>, profile: string,
                        modules: seq<string>)
    returns (r: Result<seq<Loaded<C>>, LoadError>)
    ensures profile !in profiles ==> r == Err(ValueError(ProfileMessage))
    ensures profile in profiles ==>
              var entries := profiles[profile];
              && (r.Ok? <==> forall k :: 0 <= k < |entries| ==> LoadEntry(resolve, entries[k], modules).Ok?)
              && (r.Ok? ==> |r.value| == |entries| &&
                            forall k :: 0 <= k < |entries| ==> r.value[k] == LoadEntry(resolve, entries[k], modules).value)
              && (r.Err? ==> exists k :: 0 <= k < |entries| && LoadEntry(resolve, entries[k], modules) == Err(r.error) &&
                               forall j :: 0 <= j < k ==> LoadEntry(resolve, entries[j], modules).Ok?)
  {
    if profile !in profiles {
      return Err(ValueError(ProfileMessage));
    }
    var entries := profiles[profile];
    var loaded: seq<Loaded<C>> := [];
    for k := 0 to |entries|
      invariant |loaded| == k
      invariant forall j :: 0 <= j < k ==> LoadEntry(resolve, entries[j], modules) == Ok(loaded[j])
    {
      var shape := EntryOf(entries[k]);
      if shape.Err? {
        return Err(shape.error);
      }
      var (name, params) := shape.value;
      var cls := ResolveClass(resolve, name, modules);
      if cls.Err? {
        return Err(cls.error);
      }
      var normal := NormaliseParams(params);
      if normal.Err? {
        return Err(normal.error);
      }
      loaded := loaded + [Loaded(cls.value, normal.value.0, normal.value.1)];
    }
    return Ok(loaded);
  }

  // ---------------------------------------------------------------------
  // The include merge of load_constraints_from_file
  // ---------------------------------------------------------------------

  /** A validated constraint schema; only its name matters to the merge. */
  datatype Schema<T> = Schema(name: string, body: T)

  function Names<T>(s: seq<Schema<T>>): (r: seq<string>)
    ensures |r| == |s|
  {
    if s == [] then [] else Names(s[..|s| - 1]) + [s[|s| - 1].name]
  }

  lemma {:induction false} NamesSpec<T>(s: seq<Schema<T>>)
    ensures forall k :: 0 <= k < |s| ==> Names(s)[k] == s[k].name
  {
    if s != [] {
      NamesSpec(s[..|s| - 1]);
    }
  }

  /** The names of a longer prefix. */
  lemma NamesSnoc<T>(s: seq<Schema<T>>, j: nat)
    requires j < |s|
    ensures Names(s[..j + 1]) == Names(s[..j]) + [s[j].name]
  {
    assert s[..j + 1][..j] == s[..j];
  }

  /** Each name once, at its first occurrence. */
  function Distinct(names: seq<string>): (r: seq<string>)
  {
    if names == [] then []
    else
      var d := Distinct(names[..|names| - 1]);
      if names[|names| - 1] in d then d else d + [names[|names| - 1]]
  }

  predicate Unique(names: seq<string>)
  {
    forall a, b :: 0 <= a < b < |names| ==> names[a] != names[b]
  }

  /** `Distinct` keeps every name, adds none and repeats none. */
  lemma {:induction false} DistinctSpec(names: seq<string>)
    ensures forall x :: x in Distinct(names) <==> x in names
    ensures Unique(Distinct(names))
  {
    if names != [] {
      var init := names[..|names| - 1];
      DistinctSpec(init);
      assert names == init + [names[|names| - 1]];
    }
  }

  /** `Distinct` keeps `x` exactly when it occurs. */
  lemma {:induction false} DistinctHas(names: seq<string>, x: string)
    ensures x in Distinct(names) <==> x in names
  {
    if names != [] {
      DistinctHas(names[..|names| - 1], x);
      assert names == names[..|names| - 1] + [names[|names| - 1]];
    }
  }

  lemma DistinctSnoc(names: seq<string>, x: string)
    ensures Distinct(names + [x]) == if x in Distinct(names) then Distinct(names) else Distinct(names) + [x]
  {
    assert (names + [x])[..|names|] == names;
  }

  /** The last schema named `n`: a dictionary built from the list keeps the last value per key. */
  function LastNamed<T>(s: seq<Schema<T>>, n: string): (r: Schema<T>)
    requires n in Names(s)
    ensures r.name == n
  {
    if s[|s| - 1].name == n then s[|s| - 1]
    else
      assert Names(s) == Names(s[..|s| - 1]) + [s[|s| - 1].name];
      LastNamed(s[..|s| - 1], n)
  }

  /** The first schema named `n`. */
  function FirstNamed<T>(s: seq<Schema<T>>, n: string): (r: Schema<T>)
    requires n in Names(s)
    ensures r.name == n
  {
    assert Names(s) == Names(s[..|s| - 1]) + [s[|s| - 1].name];
    if n in Names(s[..|s| - 1]) then FirstNamed(s[..|s| - 1], n) else s[|s| - 1]
  }

  /** The schema the merge keeps for name `n`: the last local one, else the first included one. */
  function Kept<T>(local: seq<Schema<T>>, included: seq<Schema<T>>, n: string): (r: Option<Schema<T>>)
    ensures r.Some? <==> n in Names(local) || n in Names(included)
    ensures r.Some? ==> r.value.name == n
  {
    if n in Names(local) then Some(LastNamed(local, n))
    else if n in Names(included) then Some(FirstNamed(included, n))
    else None
  }

  /** A dictionary lookup that yields `None` for a missing key. */
  function Lookup<T>(table: map<string, Schema<T>>, n: string): (r: Option<Schema<T>>)
    ensures r.Some? <==> n in table
    ensures r.Some? ==> r.value == table[n]
  {
    if n in table then Some(table[n]) else None
  }

  /** Looking one more local constraint ahead: its own name now keeps it. */
  lemma KeptLocalStep<T>(local: seq<Schema<T>>, i: nat, n: string)
    requires i < |local|
    ensures Kept(local[..i + 1], [], n) == if n == local[i].name then Some(local[i]) else Kept(local[..i], [], n)
  {
    NamesSnoc(local, i);
    assert local[..i + 1][..i] == local[..i];
  }

  /** Looking one more included constraint ahead changes only what is kept for its name, and only if the name is new. */
  lemma KeptIncludedStep<T>(local: seq<Schema<T>>, included: seq<Schema<T>>, j: nat, n: string)
    requires j < |included|
    ensures Kept(local, included[..j + 1], n) ==
              if Kept(local, included[..j], n).Some? then Kept(local, included[..j], n)
              else if n == included[j].name then Some(included[j]) else None
  {
    assert included[..j + 1][..j] == included[..j];
    NamesSnoc(included, j);
  }

  /** Storing the next local constraint under its name keeps the dictionary in step with `Kept`. */
  lemma IndexStep<T>(local: seq<Schema<T>>, i: nat, table: map<string, Schema<T>>, next: map<string, Schema<T>>)
    requires i < |local| && next == table[local[i].name := local[i]]
    requires forall n :: Lookup(table, n) == Kept(local[..i], [], n)
    ensures forall n :: Lookup(next, n) == Kept(local[..i + 1], [], n)
  {
    forall n ensures Lookup(next, n) == Kept(local[..i + 1], [], n) {
      KeptLocalStep(local, i, n);
      assert Lookup(table, n) == Kept(local[..i], [], n);
    }
  }

  /** `{c.name: c for c in local}`, with its keys in insertion order. */
  method IndexByName<T>(local: seq<Schema<T>>) returns (keys: seq<string>, table: map<string, Schema<T>>)
    ensures keys == Distinct(Names(local))
    ensures forall n :: Lookup(table, n) == Kept(local, [], n)
  {
    keys, table := [], map[];
    for i := 0 to |local|
      invariant keys == Distinct(Names(local[..i]))
      invariant forall n :: Lookup(table, n) == Kept(local[..i], [], n)
    {
      NamesSnoc(local, i);
      DistinctSnoc(Names(local[..i]), local[i].name);
      DistinctHas(Names(local[..i]), local[i].name);
      assert Lookup(table, local[i].name) == Kept(local[..i], [], local[i].name);
      var next := table[local[i].name := local[i]];
      IndexStep(local, i, table, next);
      if local[i].name !in table {
        keys := keys + [local[i].name];
      }
      table := next;
    }
    assert local[..|local|] == local;
  }

  /** Storing the next included constraint if its name is new keeps the dictionary in step with `Kept`. */
  lemma IncludeStep<T>(local: seq<Schema<T>>, included: seq<Schema<T>>, j: nat, table: map<string, Schema<T>>,
                       next: map<string, Schema<T>>)
    requires j < |included|
    requires next == if included[j].name in table then table else table[included[j].name := included[j]]
    requires forall n :: Lookup(table, n) == Kept(local, included[..j], n)
    ensures forall n :: Lookup(next, n) == Kept(local, included[..j + 1], n)
  {
    forall n ensures Lookup(next, n) == Kept(local, included[..j + 1], n) {
      KeptIncludedStep(local, included, j, n);
      assert Lookup(table, n) == Kept(local, included[..j], n);
    }
  }

  /** The loop over the included constraints: a name not yet present is added with its constraint. */
  method AddIncluded<T>(local: seq<Schema<T>>, included: seq<Schema<T>>, keys0: seq<string>, table0: map<string, Schema<T>>)
    returns (keys: seq<string>, table: map<string, Schema<T>>)
    requires keys0 == Distinct(Names(local))
    requires forall n :: Lookup(table0, n) == Kept(local, [], n)
    ensures keys == Distinct(Names(local) + Names(included))
    ensures forall n :: Lookup(table, n) == Kept(local, included, n)
  {
    keys, table := keys0, table0;
    assert Names(local) + Names(included[..0]) == Names(local);
    assert included[..0] == [];
    for j := 0 to |included|
      invariant keys == Distinct(Names(local) + Names(included[..j]))
      invariant forall n :: Lookup(table, n) == Kept(local, included[..j], n)
    {
      var x := included[j].name;
      NamesSnoc(included, j);
      assert Names(local) + Names(included[..j + 1]) == (Names(local) + Names(included[..j])) + [x];
      DistinctSnoc(Names(local) + Names(included[..j]), x);
      DistinctHas(Names(local) + Names(included[..j]), x);
      assert Lookup(table, x) == Kept(local, included[..j], x);
      var next := if x in table then table else table[x := included[j]];
      IncludeStep(local, included, j, table, next);
      if x !in table {
        keys := keys + [x];
      }
      table := next;
    }
    assert included[..|included|] == included;
  }

  /**
    The merge: when the file has includes, local constraints win over
    included ones with the same name and the result has one constraint per
    name, local names first in order of first occurrence, then the new
    included names in order. Without includes the local list is kept as is.
   */
  method MergeIncludes<T>(local: seq<Schema<T>>, hasIncludes: bool, included: seq<Schema<T>>) returns (r: seq<Schema<T>>)
    ensures !hasIncludes ==> r == local
    ensures hasIncludes ==> Names(r) == Distinct(Names(local) + Names(included))
    ensures hasIncludes ==> forall k :: 0 <= k < |r| ==> Some(r[k]) == Kept(local, included, r[k].name)
  {
    if !hasIncludes {
      return local;
    }
    var keys, table := IndexByName(local);
    keys, table := AddIncluded(local, included, keys, table);
    DistinctSpec(Names(local) + Names(included));
    forall k | 0 <= k < |keys| ensures keys[k] in table && table[keys[k]].name == keys[k] {
      assert keys[k] in Names(local) + Names(included);
      assert Lookup(table, keys[k]) == Kept(local, included, keys[k]);
    }
    r := seq(|keys|, k requires 0 <= k < |keys| => table[keys[k]]);
    NamesSpec(r);
    assert Names(r) == keys;
  }

  // ---------------------------------------------------------------------
  // The escape repair of _load_yaml
  // ---------------------------------------------------------------------

  /** The characters a YAML double-quoted escape may start with, as the pattern lists them. */
  const Allowed: set<char> := {'0', 'a', 'b', 't', 'n', 'e', 'v', 'f', 'r', '"', '\\', '/', 'N', '_', 'L', 'P', 'u', 'x', 'U'}

  /**
    The substitution as written: scanning left to right, a backslash
    followed by a character outside `Allowed` is replaced by two
    backslashes and that character; the scan goes on after the match.
    Any other character is kept and the scan moves on by one.
   */
  function Sanitise(s: string): (r: string)
    ensures |s| <= |r| <= |s| + |s| / 2
    ensures |s| > 0 ==> r[|r| - 1] == s[|s| - 1]
    decreases |s|
  {
    if |s| < 2 then s
    else if s[0] == '\\' && s[1] !in Allowed then ['\\', '\\', s[1]] + Sanitise(s[2..])
    else [s[0]] + Sanitise(s[1..])
  }

  /** The number of places the pattern matches in a left-to-right scan. */
  function Matches(s: string): (n: nat)
    ensures n <= |s| / 2
    decreases |s|
  {
    if |s| < 2 then 0
    else if s[0] == '\\' && s[1] !in Allowed then 1 + Matches(s[2..])
    else Matches(s[1..])
  }

  /** Each match adds exactly one character. */
  lemma {:induction false} SanitiseLength(s: string)
    ensures |Sanitise(s)| == |s| + Matches(s)
    decreases |s|
  {
    if |s| >= 2 {
      if s[0] == '\\' && s[1] !in Allowed {
        SanitiseLength(s[2..]);
      } else {
        SanitiseLength(s[1..]);
      }
    }
  }

  /** The text is left alone exactly when the pattern does not match. */
  lemma {:induction false} SanitiseUnchanged(s: string)
    ensures Sanitise(s) == s <==> Matches(s) == 0
    decreases |s|
  {
    SanitiseLength(s);
    if |s| >= 2 && !(s[0] == '\\' && s[1] !in Allowed) {
      SanitiseUnchanged(s[1..]);
      assert s == [s[0]] + s[1..];
    }
  }

  /** Text without a backslash never matches. */
  lemma {:induction false} NoBackslashNoMatch(s: string)
    requires '\\' !in s
    ensures Matches(s) == 0 && Sanitise(s) == s
    decreases |s|
  {
    if |s| >= 2 {
      assert s[1..][0] == s[1];
      NoBackslashNoMatch(s[1..]);
    }
    SanitiseUnchanged(s);
  }

  /**
    Every backslash starts an escape YAML accepts: read left to right, an
    escape is a backslash and the character after it, and that character is
    in `Allowed`. A trailing lone backslash is not judged.
   */
  predicate EscapesValid(s: string)
    decreases |s|
  {
    if |s| < 2 then true
    else if s[0] == '\\' then s[1] in Allowed && EscapesValid(s[2..])
    else EscapesValid(s[1..])
  }

  /** The substitution as written turns the valid escaped backslash in `\\d` into `\\\d`, whose `\d` is invalid. */
  lemma EscapedBackslashBroken()
    ensures EscapesValid("\\\\d")
    ensures Sanitise("\\\\d") == "\\\\\\d"
    ensures !EscapesValid(Sanitise("\\\\d"))
  {
    assert "\\\\d"[1..] == "\\d";
    assert "\\d"[2..] == "";
    assert "\\\\\\d"[2..] == "\\d";
  }

  /** A character other than a backslash in front does not change whether the escapes are valid. */
  lemma ValidCons(c: char, t: string)
    requires c != '\\'
    ensures EscapesValid([c] + t) == EscapesValid(t)
  {
    assert ([c] + t)[1..] == t;
  }

  /** A valid escape in front does not change whether the escapes are valid. */
  lemma ValidPair(e: string, t: string)
    requires |e| == 2 && e[0] == '\\' && e[1] in Allowed
    ensures EscapesValid(e + t) == EscapesValid(t)
  {
    assert (e + t)[2..] == t;
  }

  /** A doubled backslash and a character other than a backslash in front do not change whether the escapes are valid. */
  lemma ValidDoubled(c: char, t: string)
    requires c != '\\'
    ensures EscapesValid(['\\', '\\', c] + t) == EscapesValid(t)
  {
    assert (['\\', '\\', c] + t)[2..] == [c] + t;
    ValidCons(c, t);
  }

  /**
    The substitution with escaped backslashes kept as pairs, so the scan
    never starts inside an escape. Its result has only valid escapes.
   */
  function SanitiseFixed(s: string): (r: string)
    ensures EscapesValid(r)
    decreases |s|
  {
    if |s| < 2 then s
    else if s[0] == '\\' && s[1] !in Allowed then
      var t := SanitiseFixed(s[2..]);
      ValidDoubled(s[1], t);
      ['\\', '\\', s[1]] + t
    else if s[0] == '\\' then
      var t := SanitiseFixed(s[2..]);
      ValidPair(s[..2], t);
      s[..2] + t
    else
      var t := SanitiseFixed(s[1..]);
      ValidCons(s[0], t);
      [s[0]] + t
  }

  /** The corrected substitution leaves text whose escapes are already valid unchanged. */
  lemma {:induction false} SanitiseFixedKeepsValid(s: string)
    requires EscapesValid(s)
    ensures SanitiseFixed(s) == s
    decreases |s|
  {
    if |s| >= 2 {
      if s[0] == '\\' {
        SanitiseFixedKeepsValid(s[2..]);
        assert s == s[..2] + s[2..];
      } else {
        SanitiseFixedKeepsValid(s[1..]);
        assert s == [s[0]] + s[1..];
      }
    }
  }

  /** Repairing twice is repairing once. */
  lemma SanitiseFixedIdempotent(s: string)
    ensures SanitiseFixed(SanitiseFixed(s)) == SanitiseFixed(s)
  {
    SanitiseFixedKeepsValid(SanitiseFixed(s));
  }
}
