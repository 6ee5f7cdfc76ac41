/** Modules as parsed, before anything is evaluated, and what evaluating one means. */
module ModuleTrees {
  import opened Outcomes
  import opened Values
  import opened Templates
  import Text

  /** A nil Default (here `Null`) means the param has none. */
  datatype ParamDef = ParamDef(description: string, default: Value)

  datatype ModuleTree = ModuleTree(params: map<string, ParamDef>, imports: seq<ImportTree>, raw: Dict)

  datatype ImportTree = ImportTree(name: string, params: Dict, mod: ModuleTree)

  function FillDefaults(defs: map<string, ParamDef>, args: Dict): Dict {
    args + map k | k in defs && defs[k].default != Null && k !in args :: defs[k].default
  }

  function Segments(ident: string): (segs: seq<string>)
    ensures segs != []
  {
    Text.Split(ident, ".")
  }

  /** The first import of a name is the one that counts. */
  function FindImport(imports: seq<ImportTree>, name: string): (r: Option<nat>)
    ensures r.Some? ==> r.value < |imports| && imports[r.value].name == name
    ensures r.Some? ==> forall j :: 0 <= j < r.value ==> imports[j].name != name
    ensures r.None? ==> forall j :: 0 <= j < |imports| ==> imports[j].name != name
  {
    if imports == [] then None
    else if imports[0].name == name then Some(0)
    else match FindImport(imports[1..], name) case None => None case Some(i) => Some(i + 1)
  }

  /** jsonutil.GetOnlyMapEntry. */
  function OnlyEntry(raw: Dict): (r: Outcome<Value>)
    ensures r.Ok? <==> exists k :: raw.Keys == {k}
    ensures r.Ok? ==> forall k :: k in raw ==> raw[k] == r.value
    ensures !r.Crash?
  {
    if |raw| == 1 then
      var k :| k in raw;
      assert raw.Keys - {k} == {} by { assert |raw.Keys - {k}| == 0; }
      assert raw.Keys == {k};
      Ok(raw[k])
    else
      assert forall k :: raw.Keys == {k} ==> |raw.Keys| == 1;
      Fail
  }

  function UpTo(n: nat): (s: set<nat>)
    ensures forall i :: i in s <==> 0 <= i < n
  {
    if n == 0 then {} else UpTo(n - 1) + {n - 1}
  }

  function Indices(t: ModuleTree): set<nat> {
    UpTo(|t.imports|)
  }

  // ----- Denotation: no state, no memo, no iteration order -----

  /** The raw export of a module given its arguments. */
  function EvalModule(t: ModuleTree, args: Dict): Outcome<Dict>
    decreases t, Indices(t), 3
  {
    ReplaceEntries(t.raw, ResolverOf(t, FillDefaults(t.params, args), {}))
  }

  function ResolverOf(t: ModuleTree, p: Dict, stack: set<nat>): Resolver
    decreases t, Indices(t) - stack, 2
  {
    ident => Lookup(t, p, stack, ident)
  }

  /** Params shadow imports. `stack` holds the imports whose evaluation has begun and not ended. */
  function Lookup(t: ModuleTree, p: Dict, stack: set<nat>, ident: string): Outcome<Value>
    decreases t, Indices(t) - stack, 1
  {
    var segs := Segments(ident);
    if segs[0] in p then AtPath(p[segs[0]], segs[1..])
    else
      match FindImport(t.imports, segs[0])
      case None => Fail
      case Some(i) =>
        var raw :- EvalImport(t, p, stack, i);
        var top :- OnlyEntry(raw);
        AtPath(top, segs[1..])
  }

  /** Needing an import whose evaluation has begun and not ended recurses without end. */
  function EvalImport(t: ModuleTree, p: Dict, stack: set<nat>, i: nat): Outcome<Dict>
    requires i < |t.imports|
    decreases t, Indices(t) - stack, 0
  {
    if i in stack then Crash
    else
      assert i in Indices(t) - stack;
      var args :- ReplaceEntries(t.imports[i].params, ResolverOf(t, p, stack + {i}));
      EvalModule(t.imports[i].mod, args)
  }

  // ----- The stack only ever adds crashes -----

  lemma {:induction false} LookupMonotone(t: ModuleTree, p: Dict, small: set<nat>, big: set<nat>, ident: string)
    requires small <= big
    ensures Refines(Lookup(t, p, big, ident), Lookup(t, p, small, ident))
    decreases Indices(t) - big, 1
  {
    var name := Segments(ident)[0];
    if name !in p && FindImport(t.imports, name).Some? {
      EvalImportMonotone(t, p, small, big, FindImport(t.imports, name).value);
    }
  }

  lemma {:induction false} EvalImportMonotone(t: ModuleTree, p: Dict, small: set<nat>, big: set<nat>, i: nat)
    requires small <= big && i < |t.imports|
    ensures Refines(EvalImport(t, p, big, i), EvalImport(t, p, small, i))
    decreases Indices(t) - big, 0
  {
    if i !in big {
      assert i in Indices(t) - big;
      ResolverMonotone(t, p, small + {i}, big + {i});
      var f, g := ResolverOf(t, p, big + {i}), ResolverOf(t, p, small + {i});
      ReplaceEntriesMonotone(t.imports[i].params, f, g);
    }
  }

  lemma {:induction false} ResolverMonotone(t: ModuleTree, p: Dict, small: set<nat>, big: set<nat>)
    requires small <= big
    ensures forall id :: Refines(ResolverOf(t, p, big)(id), ResolverOf(t, p, small)(id))
    decreases Indices(t) - big, 2
  {
    forall id
      ensures Refines(ResolverOf(t, p, big)(id), ResolverOf(t, p, small)(id))
    {
      LookupMonotone(t, p, small, big, id);
    }
  }

  // ----- References and reachability -----

  /** The imports that identifiers name directly; a bound name is not a reference. */
  ghost function Refs(t: ModuleTree, bound: set<string>, ids: set<string>): (refs: set<nat>) {
    set id | id in ids && Segments(id)[0] !in bound && FindImport(t.imports, Segments(id)[0]).Some?
      :: FindImport(t.imports, Segments(id)[0]).value
  }

  ghost function ParamRefs(t: ModuleTree, bound: set<string>, i: nat): set<nat>
    requires i < |t.imports|
  {
    Refs(t, bound, EntriesIdents(t.imports[i].params))
  }

  /** `path` leads from one of `roots` to its last import, each needed by the params of the one before. */
  ghost predicate IsPath(t: ModuleTree, bound: set<string>, roots: set<nat>, path: seq<nat>)
    decreases |path|
  {
    && path != [] && path[0] in roots && path[0] < |t.imports|
    && (|path| > 1 ==> IsPath(t, bound, ParamRefs(t, bound, path[0]), path[1..]))
  }

  ghost predicate Reachable(t: ModuleTree, bound: set<string>, roots: set<nat>, i: nat) {
    exists path :: IsPath(t, bound, roots, path) && path[|path| - 1] == i
  }

  lemma RootReachable(t: ModuleTree, bound: set<string>, roots: set<nat>, i: nat)
    requires i in roots && i < |t.imports|
    ensures Reachable(t, bound, roots, i)
  {
    assert IsPath(t, bound, roots, [i]);
  }

  lemma ReachableStep(t: ModuleTree, bound: set<string>, roots: set<nat>, k: nat, i: nat)
    requires k in roots && k < |t.imports| && Reachable(t, bound, ParamRefs(t, bound, k), i)
    ensures Reachable(t, bound, roots, i)
  {
    var path :| IsPath(t, bound, ParamRefs(t, bound, k), path) && path[|path| - 1] == i;
    assert ([k] + path)[1..] == path;
    assert IsPath(t, bound, roots, [k] + path);
  }

  lemma ReachableWiden(t: ModuleTree, bound: set<string>, roots: set<nat>, more: set<nat>, i: nat)
    requires roots <= more && Reachable(t, bound, roots, i)
    ensures Reachable(t, bound, more, i)
  {
    var path :| IsPath(t, bound, roots, path) && path[|path| - 1] == i;
    assert IsPath(t, bound, more, path);
  }

  /** Successful filling reached no import of the stack, directly or through params. */
  lemma {:induction false} ReachedOffStack(t: ModuleTree, p: Dict, stack: set<nat>, entries: Dict, i: nat)
    requires ReplaceEntries(entries, ResolverOf(t, p, stack)).Ok?
    requires Reachable(t, p.Keys, Refs(t, p.Keys, EntriesIdents(entries)), i)
    ensures i !in stack
  {
    var path :| IsPath(t, p.Keys, Refs(t, p.Keys, EntriesIdents(entries)), path) && path[|path| - 1] == i;
    PathOffStack(t, p, stack, entries, path);
  }

  /** Entries were filled, so what they name directly is off the stack, was evaluated, and had its params filled. */
  lemma ReferenceFilled(t: ModuleTree, p: Dict, stack: set<nat>, entries: Dict, k: nat)
    requires ReplaceEntries(entries, ResolverOf(t, p, stack)).Ok?
    requires k in Refs(t, p.Keys, EntriesIdents(entries))
    ensures k < |t.imports| && k !in stack && EvalImport(t, p, stack, k).Ok?
    ensures ReplaceEntries(t.imports[k].params, ResolverOf(t, p, stack + {k})).Ok?
  {
    ReplaceEntriesResolves(entries, ResolverOf(t, p, stack));
    var id :| id in EntriesIdents(entries) && Segments(id)[0] !in p.Keys && FindImport(t.imports, Segments(id)[0]) == Some(k);
    assert Lookup(t, p, stack, id).Ok?;
    assert EvalImport(t, p, stack, k).Ok?;
  }

  lemma {:induction false} PathOffStack(t: ModuleTree, p: Dict, stack: set<nat>, entries: Dict, path: seq<nat>)
    requires ReplaceEntries(entries, ResolverOf(t, p, stack)).Ok?
    requires IsPath(t, p.Keys, Refs(t, p.Keys, EntriesIdents(entries)), path)
    ensures path[|path| - 1] !in stack
    decreases |path|
  {
    var k := path[0];
    ReferenceFilled(t, p, stack, entries, k);
    if |path| > 1 {
      PathOffStack(t, p, stack + {k}, t.imports[k].params, path[1..]);
      assert path[1..][|path[1..]| - 1] == path[|path| - 1];
    }
  }

  /** While an import's own params are filled, putting it on the stack changes nothing: if they can
      be filled at all, they do not lead back to it. */
  lemma {:induction false} OwnStackIrrelevant(t: ModuleTree, p: Dict, stack: set<nat>, i: nat)
    requires i < |t.imports|
    requires ReplaceEntries(t.imports[i].params, ResolverOf(t, p, stack)).Ok?
    ensures ReplaceEntries(t.imports[i].params, ResolverOf(t, p, stack + {i})) ==
            ReplaceEntries(t.imports[i].params, ResolverOf(t, p, stack))
  {
    var params, f, g := t.imports[i].params, ResolverOf(t, p, stack), ResolverOf(t, p, stack + {i});
    ResolverMonotone(t, p, stack, stack + {i});
    ReplaceEntriesMonotone(params, g, f);
    if ReplaceEntries(params, g).Crash? {
      ReplaceEntriesResolves(params, f);
      forall id | id in EntriesIdents(params)
        ensures Refines(f(id), g(id))
      {
        LookupWithout(t, p, stack, stack, i, id);
      }
      ReplaceEntriesMonotone(params, f, g);
    }
  }

  lemma {:induction false} LookupWithout(t: ModuleTree, p: Dict, base: set<nat>, stack: set<nat>, i: nat, ident: string)
    requires i < |t.imports| && base <= stack
    requires !ReplaceEntries(t.imports[i].params, ResolverOf(t, p, base + {i})).Ok?
    requires Lookup(t, p, stack, ident).Ok?
    ensures Lookup(t, p, stack + {i}, ident) == Lookup(t, p, stack, ident)
    decreases Indices(t) - stack
  {
    var name := Segments(ident)[0];
    if name !in p {
      var k := FindImport(t.imports, name).value;
      assert k in Indices(t) - stack;
      var params, f := t.imports[k].params, ResolverOf(t, p, stack + {k});
      if k == i {
        ResolverMonotone(t, p, base + {i}, stack + {i});
        ReplaceEntriesMonotone(params, f, ResolverOf(t, p, base + {i}));
      } else {
        assert stack + {k} + {i} == stack + {i} + {k};
        var g := ResolverOf(t, p, stack + {i} + {k});
        ReplaceEntriesResolves(params, f);
        forall id | id in EntriesIdents(params)
          ensures Refines(f(id), g(id))
        {
          LookupWithout(t, p, base, stack + {k}, i, id);
        }
        ReplaceEntriesMonotone(params, f, g);
      }
    }
  }

  // ----- How deep evaluation can nest -----

  function MaxDepth(imports: seq<ImportTree>): (d: nat)
    ensures forall i :: 0 <= i < |imports| ==> Depth(imports[i].mod) <= d
    decreases imports, 0
  {
    if imports == [] then 0
    else
      var d, rest := Depth(imports[0].mod), MaxDepth(imports[1..]);
      assert forall i :: 1 <= i < |imports| ==> imports[i] == imports[1..][i - 1];
      if d > rest then d else rest
  }

  /** Nested import evaluations that suffice for a module. */
  function Depth(t: ModuleTree): nat
    decreases t
  {
    |t.imports| + MaxDepth(t.imports)
  }

  /** The same while the imports of `stack` are under way. */
  function Room(t: ModuleTree, stack: set<nat>): nat {
    |Indices(t) - stack| + MaxDepth(t.imports)
  }

  lemma {:induction false} UpToSize(n: nat)
    ensures |UpTo(n)| == n
  {
    if n > 0 {
      UpToSize(n - 1);
    }
  }

  lemma RoomEmpty(t: ModuleTree)
    ensures Room(t, {}) == Depth(t)
  {
    UpToSize(|t.imports|);
    assert Indices(t) - {} == Indices(t);
  }

  lemma RoomPush(t: ModuleTree, stack: set<nat>, i: nat)
    requires i < |t.imports| && i !in stack
    ensures Room(t, stack) == Room(t, stack + {i}) + 1
  {
    assert Indices(t) - stack == (Indices(t) - (stack + {i})) + {i};
  }

  /** No string of the module or of what it imports holds more than one hole. */
  ghost predicate OneHoleTree(t: ModuleTree) {
    && OneHoleEntries(t.raw)
    && forall i :: 0 <= i < |t.imports| ==> OneHoleEntries(t.imports[i].params) && OneHoleTree(t.imports[i].mod)
  }
}
