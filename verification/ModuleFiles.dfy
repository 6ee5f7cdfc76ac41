/** Reading module files: imports/imports.go unfolds files that import files into a tree of modules. */
module ModuleFiles {
  import opened Outcomes
  import opened Values
  import opened ModuleTrees
  import opened Evaluator

  /** What reading yields, unless a declaration has several keys that may be its name: then the
      iteration order of a Go map decides. */
  datatype Reading<+T> = Known(outcome: Outcome<T>) | OrderMatters {
    predicate IsFailure() {
      OrderMatters? || !outcome.Ok?
    }

    function PropagateFailure<U>(): Reading<U>
      requires IsFailure()
    {
      if OrderMatters? then OrderMatters else Known(outcome.PropagateFailure())
    }

    function Extract(): T
      requires !IsFailure()
    {
      outcome.value
    }
  }

  function Only(keys: set<string>): (k: string)
    requires |keys| == 1
    ensures keys == {k}
  {
    var k :| k in keys;
    assert |keys - {k}| == 0;
    assert keys == {k} + (keys - {k});
    k
  }

  // ----- Param definitions -----

  function ParamDefOf(v: Value): Reading<(string, ParamDef)> {
    match v
    case Str(s) => Known(Ok((s, ParamDef("", Null))))
    case Map(entries) =>
      var names := entries.Keys - {"default"};
      var default := if "default" in entries then entries["default"] else Null;
      if exists name :: name in names && !entries[name].Str? then Known(Fail)
      else if |names| > 1 then OrderMatters
      else if |names| == 0 then Known(Ok(("", ParamDef("", default))))
      else
        var name := Only(names);
        assert name in names;
        Known(Ok((name, ParamDef(entries[name].s, default))))
    case _ => Known(Fail)
  }

  /** A later definition of the same name replaces an earlier one. */
  function ParamDefsOf(items: seq<Value>): Reading<map<string, ParamDef>> {
    if items == [] then Known(Ok(map[]))
    else
      var before :- ParamDefsOf(items[..|items| - 1]);
      var last :- ParamDefOf(items[|items| - 1]);
      Known(Ok(before[last.0 := last.1]))
  }

  function ParamsSection(obj: Dict): Reading<map<string, ParamDef>> {
    if "params" !in obj then Known(Ok(map[]))
    else if obj["params"].List? then ParamDefsOf(obj["params"].items)
    else Known(Fail)
  }

  /** The result of a method is what reading yields, if that is determined. */
  ghost predicate Agrees<T(!new)>(r: Outcome<T>, spec: Reading<T>) {
    spec.Known? ==> r == spec.outcome
  }

  /** A definition of a param, told by its keys: with several that may be its name, any of them. */
  predicate Defines(v: Value, name: string, def: ParamDef) {
    match v
    case Str(s) => name == s && def == ParamDef("", Null)
    case Map(entries) =>
      && (forall k :: k in entries && k != "default" ==> entries[k].Str?)
      && (def.default == if "default" in entries then entries["default"] else Null)
      && if entries.Keys <= {"default"} then name == "" && def.description == ""
         else name in entries && name != "default" && entries[name] == Str(def.description)
    case _ => false
  }

  predicate DefinesAll(items: seq<Value>, defs: seq<(string, ParamDef)>) {
    |defs| == |items| && forall j :: 0 <= j < |items| ==> Defines(items[j], defs[j].0, defs[j].1)
  }

  predicate Named(defs: seq<(string, ParamDef)>, name: string) {
    exists j :: 0 <= j < |defs| && defs[j].0 == name
  }

  /** No later definition has the same name. */
  predicate IsLast(defs: seq<(string, ParamDef)>, j: nat)
    requires j < |defs|
  {
    forall l :: j < l < |defs| ==> defs[l].0 != defs[j].0
  }

  /** The names defined, each with its last definition. */
  ghost predicate LastOfEach(defs: seq<(string, ParamDef)>, params: map<string, ParamDef>) {
    && (forall k :: k in params <==> Named(defs, k))
    && forall j :: 0 <= j < |defs| && IsLast(defs, j) ==> defs[j].0 in params && params[defs[j].0] == defs[j].1
  }

  ghost predicate DefinesParams(obj: Dict, params: map<string, ParamDef>) {
    if "params" !in obj then params == map[]
    else obj["params"].List? && exists defs :: DefinesAll(obj["params"].items, defs) && LastOfEach(defs, params)
  }

  lemma NoneOfEach()
    ensures LastOfEach([], map[])
  {
  }

  lemma OneMoreDef(defs: seq<(string, ParamDef)>, params: map<string, ParamDef>, name: string, def: ParamDef)
    requires LastOfEach(defs, params)
    ensures LastOfEach(defs + [(name, def)], params[name := def])
  {
    var more := defs + [(name, def)];
    assert more[|defs|] == (name, def);
    forall k: string
      ensures Named(more, k) <==> Named(defs, k) || k == name
    {
      if Named(defs, k) {
        var j :| 0 <= j < |defs| && defs[j].0 == k;
        assert more[j].0 == k;
      }
    }
    forall j | 0 <= j < |defs| && IsLast(more, j)
      ensures IsLast(defs, j) && more[j] == defs[j] && more[j].0 != name
    {
      assert forall l :: j < l < |defs| ==> more[l] == defs[l];
    }
  }

  lemma {:induction false} DefsStuck(items: seq<Value>, i: nat)
    requires i <= |items| && ParamDefsOf(items[..i]).IsFailure()
    ensures ParamDefsOf(items) == ParamDefsOf(items[..i])
    decreases |items|
  {
    if i == |items| {
      assert items[..i] == items;
    } else {
      assert items[..|items| - 1][..i] == items[..i];
      DefsStuck(items[..|items| - 1], i);
    }
  }

  method ParseParamDef(obj: Value) returns (r: Outcome<(string, ParamDef)>)
    ensures Agrees(r, ParamDefOf(obj)) && !r.Crash?
    ensures r.Ok? ==> Defines(obj, r.value.0, r.value.1)
  {
    match obj
    case Str(s) => return Ok((s, ParamDef("", Null)));
    case Map(entries) =>
      var ok, name, def := ReadDefKeys(entries);
      if !ok {
        return Fail;
      }
      return Ok((name, def));
    case _ => return Fail;
  }

  /** The loop over the keys of a definition. */
  method ReadDefKeys(entries: Dict) returns (ok: bool, name: string, def: ParamDef)
    ensures Agrees(if ok then Ok((name, def)) else Fail, ParamDefOf(Map(entries)))
    ensures ok ==> Defines(Map(entries), name, def)
  {
    hide ParamDefOf;
    name, def := "", ParamDef("", Null);
    var todo := entries.Keys;
    ghost var seen: set<string> := {};
    while todo != {}
      invariant todo !! seen && todo + seen == entries.Keys
      invariant def.default == if "default" in seen then entries["default"] else Null
      invariant seen <= {"default"} ==> name == "" && def.description == ""
      invariant !(seen <= {"default"}) ==> name in seen && name != "default" && entries[name] == Str(def.description)
      invariant forall k :: k in seen && k != "default" ==> entries[k].Str?
    {
      var key :| key in todo;
      if key == "default" {
        def := def.(default := entries[key]);
      } else {
        name := key;
        if !entries[key].Str? {
          NotAName(entries, key);
          return false, name, def;
        }
        def := def.(description := entries[key].s);
      }
      todo := todo - {key};
      seen := seen + {key};
    }
    assert seen == entries.Keys;
    DefRead(entries, name, def);
    return true, name, def;
  }

  lemma NotAName(entries: Dict, key: string)
    requires key in entries && key != "default" && !entries[key].Str?
    ensures ParamDefOf(Map(entries)) == Known(Fail)
  {
    assert key in entries.Keys - {"default"};
  }

  lemma DefRead(entries: Dict, name: string, def: ParamDef)
    requires def.default == if "default" in entries then entries["default"] else Null
    requires entries.Keys <= {"default"} ==> name == "" && def.description == ""
    requires !(entries.Keys <= {"default"}) ==> name in entries && name != "default" && entries[name] == Str(def.description)
    requires forall k :: k in entries && k != "default" ==> entries[k].Str?
    ensures Agrees(Ok((name, def)), ParamDefOf(Map(entries)))
  {
    NamesAre(entries, name);
  }

  lemma NamesAre(entries: Dict, name: string)
    requires !(entries.Keys <= {"default"}) ==> name in entries && name != "default"
    ensures var names := entries.Keys - {"default"};
      && (|names| == 0 <==> entries.Keys <= {"default"})
      && (|names| == 1 ==> Only(names) == name)
  {
    var names := entries.Keys - {"default"};
    if entries.Keys <= {"default"} {
      assert names == {};
    } else {
      assert name in names;
    }
  }

  lemma NoDefs(obj: Dict)
    ensures "params" in obj && obj["params"].List? ==> ParamDefsOf(obj["params"].items[..0]) == Known(Ok(map[]))
  {
  }

  lemma DefsSnoc(items: seq<Value>, i: nat)
    requires i < |items|
    ensures ParamDefsOf(items[..i]).IsFailure() ==> ParamDefsOf(items[..i + 1]).IsFailure()
    ensures !ParamDefsOf(items[..i]).IsFailure() ==>
      ParamDefsOf(items[..i + 1]) ==
      match ParamDefOf(items[i])
      case OrderMatters => OrderMatters
      case Known(Ok(d)) => Known(Ok(ParamDefsOf(items[..i]).outcome.value[d.0 := d.1]))
      case Known(Fail) => Known(Fail)
      case Known(Crash) => Known(Crash)
    ensures ParamDefsOf(items[..i]) == OrderMatters ==> ParamDefsOf(items[..i + 1]) == OrderMatters
  {
    assert items[..i + 1][..i] == items[..i];
  }

  method ParseParamDefs(obj: Dict) returns (r: Outcome<map<string, ParamDef>>)
    ensures Agrees(r, ParamsSection(obj)) && !r.Crash?
    ensures r.Ok? ==> DefinesParams(obj, r.value)
  {
    hide ParamDefsOf, ParamDefOf, Defines, LastOfEach;
    assert LastOfEach([], map[]) by {
      NoneOfEach();
    }
    ghost var defs: seq<(string, ParamDef)> := [];
    var params: map<string, ParamDef> := map[];
    if "params" !in obj {
      return Ok(params);
    }
    NoDefs(obj);
    match obj["params"]
    case List(paramObjs) =>
      for i := 0 to |paramObjs|
        invariant Agrees(Ok(params), ParamDefsOf(paramObjs[..i]))
        invariant DefinesAll(paramObjs[..i], defs) && LastOfEach(defs, params)
      {
        DefsSnoc(paramObjs, i);
        var def := ParseParamDef(paramObjs[i]);
        if ParamDefsOf(paramObjs[..i + 1]).IsFailure() {
          DefsStuck(paramObjs, i + 1);
        }
        if !def.Ok? {
          return Fail;
        }
        OneMoreDef(defs, params, def.value.0, def.value.1);
        defs, params := defs + [def.value], params[def.value.0 := def.value.1];
      }
      assert paramObjs[..|paramObjs|] == paramObjs;
      return Ok(params);
    case _ => return Fail;
  }

  // ----- Files -----

  /** ParseComponent deletes the sections it has read. */
  function WithoutSections(obj: Dict): Dict {
    obj - {"imports"} - {"params"}
  }

  class Files {
    const readFromPath: string -> Option<seq<Dict>>
    const resolveImportPath: (string, string) -> Option<string>

    constructor (readFromPath: string -> Option<seq<Dict>>, resolveImportPath: (string, string) -> Option<string>)
      ensures this.readFromPath == readFromPath && this.resolveImportPath == resolveImportPath
    {
      this.readFromPath, this.resolveImportPath := readFromPath, resolveImportPath;
    }

    /** The modules of a file, every import unfolded; `frames` is how many nested imports there is
        room for, and running out of it is a crash. */
    function TreesOf(path: string, frames: nat): Reading<seq<ModuleTree>>
      decreases frames, 4
    {
      match readFromPath(path)
      case None => Known(Fail)
      case Some(objs) => ComponentsOf(path, objs, frames)
    }

    function ComponentsOf(path: string, objs: seq<Dict>, frames: nat): Reading<seq<ModuleTree>>
      decreases frames, 3, |objs|
    {
      if objs == [] then Known(Ok([]))
      else
        var before :- ComponentsOf(path, objs[..|objs| - 1], frames);
        var last :- ComponentOf(path, objs[|objs| - 1], frames);
        Known(Ok(before + [last]))
    }

    /** What is left besides imports and params must be one exported resource. */
    function ComponentOf(path: string, obj: Dict, frames: nat): Reading<ModuleTree>
      decreases frames, 2
    {
      var imports :- ImportsSection(path, obj, frames);
      var params :- ParamsSection(obj);
      var raw := WithoutSections(obj);
      if |raw| != 1 then Known(Fail) else Known(Ok(ModuleTree(params, imports, raw)))
    }

    function ImportsSection(path: string, obj: Dict, frames: nat): Reading<seq<ImportTree>>
      decreases frames, 1
    {
      if "imports" !in obj then Known(Ok([]))
      else if obj["imports"].List? then ImportsOf(path, obj["imports"].items, frames)
      else Known(Fail)
    }

    function ImportsOf(path: string, items: seq<Value>, frames: nat): Reading<seq<ImportTree>>
      decreases frames, 0, |items|, 1
    {
      if items == [] then Known(Ok([]))
      else
        var before :- ImportsOf(path, items[..|items| - 1], frames);
        var item := items[|items| - 1];
        if !item.Map? then Known(Fail)
        else
          var last :- ImportOf(path, item.entries, frames);
          Known(Ok(before + [last]))
    }

    /** The file that an import declaration names. */
    function Target(path: string, decl: Dict): Reading<(string, string)> {
      var names := decl.Keys - {"params"};
      if |decl| == 0 || |decl| > 2 || ("params" in decl && !decl["params"].Map?) then Known(Fail)
      else if exists name :: name in names && FileOf(path, decl[name]).None? then Known(Fail)
      else if |names| > 1 then OrderMatters
      else if |names| == 0 then Known(Fail)
      else
        var name := Only(names);
        assert name in names;
        if name == "" then Known(Fail)
        else Known(Ok((name, FileOf(path, decl[name]).value)))
    }

    /** The file a path in a declaration stands for. */
    function FileOf(path: string, v: Value): Option<string> {
      if v.Str? then resolveImportPath(path, v.s) else None
    }

    /** Only the first module of an imported file counts; a file without any is an index out of range. */
    function ImportOf(path: string, decl: Dict, frames: nat): Reading<ImportTree>
      decreases frames, 0, 0, 0
    {
      var target :- Target(path, decl);
      if frames == 0 then Known(Crash)
      else
        var trees :- TreesOf(target.1, frames - 1);
        if trees == [] then Known(Crash)
        else Known(Ok(ImportTree(target.0, if "params" in decl then decl["params"].entries else map[], trees[0])))
    }

    // ----- What is read, told by the declarations -----

    /** The trees are the modules of the file: one for each object, in order. Where a declaration has
        several keys that may be its name, any of them may have been taken. */
    ghost predicate Reads(path: string, trees: seq<ModuleTree>, frames: nat)
      decreases frames, 4, 1
    {
      readFromPath(path).Some? && ReadsEach(path, readFromPath(path).value, trees, frames)
    }

    ghost predicate ReadsEach(path: string, objs: seq<Dict>, trees: seq<ModuleTree>, frames: nat)
      decreases frames, 4, 0
    {
      |trees| == |objs| && forall i :: 0 <= i < |objs| ==> ReadsModule(path, objs[i], trees[i], frames)
    }

    lemma ReadsOneMore(path: string, objs: seq<Dict>, trees: seq<ModuleTree>, i: nat, t: ModuleTree, frames: nat)
      requires i < |objs| && ReadsEach(path, objs[..i], trees, frames) && ReadsModule(path, objs[i], t, frames)
      ensures ReadsEach(path, objs[..i + 1], trees + [t], frames)
    {
      hide ReadsModule;
    }

    /** The module has the imports and the params its object declares, in order, and exports the one
        entry that is left. */
    ghost predicate ReadsModule(path: string, obj: Dict, t: ModuleTree, frames: nat)
      decreases frames, 3
    {
      && ReadsImports(path, obj, t.imports, frames)
      && DefinesParams(obj, t.params)
      && (exists k :: obj.Keys - {"imports", "params"} == {k} && t.raw == map[k := obj[k]])
    }

    ghost predicate ReadsImports(path: string, obj: Dict, imports: seq<ImportTree>, frames: nat)
      decreases frames, 2
    {
      if "imports" !in obj then imports == []
      else obj["imports"].List? && ReadsAll(path, obj["imports"].items, imports, frames)
    }

    ghost predicate ReadsAll(path: string, decls: seq<Value>, imports: seq<ImportTree>, frames: nat)
      decreases frames, 1
    {
      && |imports| == |decls|
      && forall j :: 0 <= j < |decls| ==> decls[j].Map? && ReadsImport(path, decls[j].entries, imports[j], frames)
    }

    /** An import has the name that its declaration gives besides the params, the params given, and the
        first module of the file that is named. */
    ghost predicate ReadsImport(path: string, decl: Dict, imp: ImportTree, frames: nat)
      decreases frames, 0
    {
      && 0 < |decl| <= 2
      && imp.name in decl && imp.name != "params" && imp.name != ""
      && (if "params" in decl then decl["params"] == Map(imp.params) else imp.params == map[])
      && (forall k :: k in decl && k != "params" ==> decl[k].Str? && resolveImportPath(path, decl[k].s).Some?)
      && frames > 0
      && exists trees :: Reads(resolveImportPath(path, decl[imp.name].s).value, trees, frames - 1) && trees != [] && imp.mod == trees[0]
    }

    // ----- The parser -----

    /** Objects of the given trees, none touched yet, and no two sharing anything. */
    ghost predicate Built(mods: seq<Module>, trees: seq<ModuleTree>)
      reads set i, o | 0 <= i < |mods| && o in mods[i].repr :: o
    {
      && |mods| == |trees|
      && (forall i :: 0 <= i < |mods| ==> mods[i].tree == trees[i] && WellFormed(mods[i]) && Pristine(mods[i]))
      && forall i, j :: 0 <= i < j < |mods| ==> mods[i].repr !! mods[j].repr
    }

    method Parse(rootPath: string, frames: nat) returns (r: Outcome<seq<Module>>, ghost trees: seq<ModuleTree>)
      ensures r.Ok? ==> Built(r.value, trees) && forall m :: m in r.value ==> fresh(m.repr)
      ensures Agrees(if r.Ok? then Ok(trees) else r.PropagateFailure(), TreesOf(rootPath, frames))
      ensures r.Ok? ==> Reads(rootPath, trees, frames)
      decreases frames, 4
    {
      trees := [];
      var read := readFromPath(rootPath);
      if read.None? {
        return Fail, [];
      }
      var objs := read.value;
      var modules: seq<Module> := [];
      NoComponents(rootPath, objs, frames);
      assert ReadsEach(rootPath, objs[..0], [], frames);
      hide ComponentsOf, ComponentOf, WellFormed, Pristine, ReadsModule, ReadsEach;
      for i := 0 to |objs|
        invariant Built(modules, trees) && forall m :: m in modules ==> fresh(m.repr)
        invariant ReadsEach(rootPath, objs[..i], trees, frames)
        invariant Agrees(Ok(trees), ComponentsOf(rootPath, objs[..i], frames))
      {
        ComponentsStep(rootPath, objs, i, frames);
        var mod, tree := ParseComponent(rootPath, objs[i], frames);
        if !mod.Ok? {
          return mod.PropagateFailure(), [];
        }
        AnotherModule(modules, trees, mod.value);
        ReadsOneMore(rootPath, objs, trees, i, tree, frames);
        modules, trees := modules + [mod.value], trees + [tree];
      }
      assert objs[..|objs|] == objs;
      return Ok(modules), trees;
    }

    lemma AnotherModule(mods: seq<Module>, trees: seq<ModuleTree>, m: Module)
      requires Built(mods, trees) && WellFormed(m) && Pristine(m)
      requires forall i :: 0 <= i < |mods| ==> mods[i].repr !! m.repr
      ensures Built(mods + [m], trees + [m.tree])
    {
      hide WellFormed, Pristine;
    }

    lemma NoComponents(path: string, objs: seq<Dict>, frames: nat)
      ensures ComponentsOf(path, objs[..0], frames) == Known(Ok([]))
    {
    }

    lemma ComponentsSnoc(path: string, objs: seq<Dict>, i: nat, frames: nat)
      requires i < |objs|
      ensures ComponentsOf(path, objs[..i], frames).IsFailure() ==>
        ComponentsOf(path, objs[..i + 1], frames) == ComponentsOf(path, objs[..i], frames)
      ensures !ComponentsOf(path, objs[..i], frames).IsFailure() ==>
        ComponentsOf(path, objs[..i + 1], frames) ==
        match ComponentOf(path, objs[i], frames)
        case OrderMatters => OrderMatters
        case Known(Ok(t)) => Known(Ok(ComponentsOf(path, objs[..i], frames).outcome.value + [t]))
        case Known(Fail) => Known(Fail)
        case Known(Crash) => Known(Crash)
    {
      assert objs[..i + 1][..i] == objs[..i];
    }

    /** One more component, or none of the rest matters. */
    lemma ComponentsStep(path: string, objs: seq<Dict>, i: nat, frames: nat)
      requires i < |objs|
      ensures var before := ComponentsOf(path, objs[..i], frames);
        if before.IsFailure() then ComponentsOf(path, objs[..i + 1], frames) == ComponentsOf(path, objs, frames) == before
        else
          match ComponentOf(path, objs[i], frames)
          case Known(Ok(t)) => ComponentsOf(path, objs[..i + 1], frames) == Known(Ok(before.outcome.value + [t]))
          case Known(Fail) => ComponentsOf(path, objs, frames) == Known(Fail)
          case Known(Crash) => ComponentsOf(path, objs, frames) == Known(Crash)
          case OrderMatters => ComponentsOf(path, objs[..i + 1], frames) == ComponentsOf(path, objs, frames) == OrderMatters
    {
      hide ComponentsOf, ComponentOf;
      ComponentsSnoc(path, objs, i, frames);
      if ComponentsOf(path, objs[..i + 1], frames).IsFailure() {
        ComponentsStuck(path, objs, i + 1, frames);
      }
    }

    method ParseComponent(rootPath: string, obj: Dict, frames: nat) returns (r: Outcome<Module>, ghost tree: ModuleTree)
      ensures r.Ok? ==> WellFormed(r.value) && Pristine(r.value) && r.value.tree == tree && fresh(r.value.repr)
      ensures Agrees(if r.Ok? then Ok(tree) else r.PropagateFailure(), ComponentOf(rootPath, obj, frames))
      ensures r.Ok? ==> ReadsModule(rootPath, obj, tree, frames)
      decreases frames, 3
    {
      tree := ModuleTree(map[], [], map[]);
      ComponentIs(rootPath, obj, frames);
      hide ComponentOf, ImportsSection, ParamsSection, WellFormed, Pristine, Waiting, ReadsImports, DefinesParams;
      var imports, imported, below := ParseImports(rootPath, obj, frames);
      if !imports.Ok? {
        return imports.PropagateFailure(), tree;
      }
      var params := ParseParamDefs(obj);
      if !params.Ok? {
        return params.PropagateFailure(), tree;
      }
      var left := WithoutSections(obj);
      if |left| != 1 {
        return Fail, tree;
      }
      tree := ModuleTree(params.value, imported, left);
      OneLeft(obj);
      var mod := new Module(params.value, imports.value, left, tree, below);
      return Ok(mod), tree;
    }

    lemma OneLeft(obj: Dict)
      requires |WithoutSections(obj)| == 1
      ensures exists k :: obj.Keys - {"imports", "params"} == {k} && WithoutSections(obj) == map[k := obj[k]]
    {
      var k := Only(WithoutSections(obj).Keys);
      assert WithoutSections(obj).Keys == obj.Keys - {"imports", "params"};
      assert k in WithoutSections(obj).Keys;
    }

    lemma ComponentIs(path: string, obj: Dict, frames: nat)
      ensures ComponentOf(path, obj, frames) ==
        match (ImportsSection(path, obj, frames), ParamsSection(obj))
        case (Known(Ok(imports)), Known(Ok(params))) =>
          if |WithoutSections(obj)| != 1 then Known(Fail) else Known(Ok(ModuleTree(params, imports, WithoutSections(obj))))
        case (Known(Ok(_)), Known(Fail)) => Known(Fail)
        case (Known(Ok(_)), Known(Crash)) => Known(Crash)
        case (Known(Ok(_)), OrderMatters) => OrderMatters
        case (Known(Fail), _) => Known(Fail)
        case (Known(Crash), _) => Known(Crash)
        case (OrderMatters, _) => OrderMatters
    {
      hide ImportsSection, ParamsSection, WithoutSections;
    }

    method ParseImports(rootPath: string, obj: Dict, frames: nat)
      returns (r: Outcome<seq<Import>>, ghost imported: seq<ImportTree>, ghost below: set<object>)
      ensures r.Ok? ==> Gathered(r.value, imported, below) && fresh(below)
      ensures Agrees(if r.Ok? then Ok(imported) else r.PropagateFailure(), ImportsSection(rootPath, obj, frames))
      ensures r.Ok? ==> ReadsImports(rootPath, obj, imported, frames)
      decreases frames, 2
    {
      hide ImportsOf, ImportOf, WellFormed, Waiting, ReadsImport;
      imported, below := [], {};
      var imports: seq<Import> := [];
      if "imports" !in obj {
        return Ok(imports), imported, below;
      }
      if !obj["imports"].List? {
        return Fail, imported, below;
      }
      var imprts := obj["imports"].items;
      NoImports(rootPath, imprts, frames);
      for i := 0 to |imprts|
        invariant Gathered(imports, imported, below) && fresh(below)
        invariant Agrees(Ok(imported), ImportsOf(rootPath, imprts[..i], frames))
        invariant ReadsAll(rootPath, imprts[..i], imported, frames)
      {
        ImportsSnoc(rootPath, imprts, i, frames);
        if ImportsOf(rootPath, imprts[..i + 1], frames).IsFailure() {
          ImportsStuck(rootPath, imprts, i + 1, frames);
        }
        if !imprts[i].Map? {
          return Fail, imported, below;
        }
        var imp, tree := ParseImport(rootPath, imprts[i].entries, frames);
        if !imp.Ok? {
          return imp.PropagateFailure(), imported, below;
        }
        OneMore(imports, imported, below, imp.value);
        imports, imported, below := imports + [imp.value], imported + [tree], below + Owned(imp.value);
      }
      assert imprts[..|imprts|] == imprts;
      return Ok(imports), imported, below;
    }

    lemma NoImports(path: string, items: seq<Value>, frames: nat)
      ensures ImportsOf(path, items[..0], frames) == Known(Ok([]))
    {
    }

    lemma ImportsSnoc(path: string, items: seq<Value>, i: nat, frames: nat)
      requires i < |items|
      ensures ImportsOf(path, items[..i], frames).IsFailure() ==>
        ImportsOf(path, items[..i + 1], frames) == ImportsOf(path, items[..i], frames)
      ensures !ImportsOf(path, items[..i], frames).IsFailure() ==>
        ImportsOf(path, items[..i + 1], frames) ==
        if !items[i].Map? then Known(Fail)
        else
          match ImportOf(path, items[i].entries, frames)
          case OrderMatters => OrderMatters
          case Known(Ok(t)) => Known(Ok(ImportsOf(path, items[..i], frames).outcome.value + [t]))
          case Known(Fail) => Known(Fail)
          case Known(Crash) => Known(Crash)
    {
      assert items[..i + 1][..i] == items[..i];
    }

    lemma OneMore(imports: seq<Import>, imported: seq<ImportTree>, below: set<object>, imp: Import)
      requires Gathered(imports, imported, below) && Owned(imp) !! below
      requires imp.tree.name == imp.name && imp.tree.mod == imp.mod.tree
      requires WellFormed(imp.mod) && Waiting(imp) && imp !in imp.mod.repr
      ensures Gathered(imports + [imp], imported + [imp.tree], below + Owned(imp))
    {
      hide WellFormed, Waiting;
    }

    /** Imports fit to become those of one module. */
    ghost predicate Gathered(imports: seq<Import>, imported: seq<ImportTree>, below: set<object>)
      reads below
    {
      && Separate(imports, below)
      && |imports| == |imported|
      && (forall i :: 0 <= i < |imports| ==> imports[i].tree == imported[i] && Waiting(imports[i]))
    }

    method ParseImport(rootPath: string, imprt: Dict, frames: nat) returns (r: Outcome<Import>, ghost tree: ImportTree)
      ensures r.Ok? ==> r.value.tree == tree && tree.name == r.value.name && tree.mod == r.value.mod.tree
      ensures r.Ok? ==> WellFormed(r.value.mod) && Waiting(r.value) && r.value !in r.value.mod.repr && fresh(Owned(r.value))
      ensures Agrees(if r.Ok? then Ok(tree) else r.PropagateFailure(), ImportOf(rootPath, imprt, frames))
      ensures r.Ok? ==> ReadsImport(rootPath, imprt, tree, frames) && r.value.params == tree.params
      decreases frames, 1
    {
      hide WellFormed, Pristine, TreesOf, Target;
      tree := ImportTree("", map[], ModuleTree(map[], [], map[]));
      var target, params := ReadImport(rootPath, imprt);
      if !target.Ok? {
        return target.PropagateFailure(), tree;
      }
      if frames == 0 {
        return Crash, tree;
      }
      var modules, trees := Parse(target.value.1, frames - 1);
      if !modules.Ok? {
        return modules.PropagateFailure(), tree;
      }
      if |modules.value| == 0 {
        return Crash, tree;
      }
      var mod := modules.value[0];
      assert mod in modules.value;
      var imp := new Import(target.value.0, params, mod);
      tree := imp.tree;
      return Ok(imp), tree;
    }

    method ReadImport(rootPath: string, imprt: Dict) returns (target: Outcome<(string, string)>, params: Dict)
      ensures Agrees(target, Target(rootPath, imprt)) && !target.Crash?
      ensures target.Ok? ==> 0 < |imprt| <= 2 && target.value.0 != "" && target.value.0 != "params" && target.value.0 in imprt
      ensures target.Ok? ==> FileOf(rootPath, imprt[target.value.0]) == Some(target.value.1)
      ensures target.Ok? ==> forall k :: k in imprt && k != "params" ==> FileOf(rootPath, imprt[k]).Some?
      ensures target.Ok? ==>
        && ("params" in imprt ==> imprt["params"].Map?)
        && params == if "params" in imprt then imprt["params"].entries else map[]
    {
      if |imprt| == 0 || |imprt| > 2 {
        return Fail, map[];
      }
      var ok, name, path, given := ReadKeys(rootPath, imprt);
      if !ok {
        return Fail, given;
      }
      TargetRead(rootPath, imprt, name, path);
      hide Target, FileOf;
      if |name| == 0 {
        return Fail, given;
      }
      return Ok((name, path)), given;
    }

    /** The loop over the keys of a declaration. */
    method ReadKeys(rootPath: string, imprt: Dict) returns (ok: bool, name: string, path: string, params: Dict)
      ensures !ok && 0 < |imprt| <= 2 ==> Target(rootPath, imprt) == Known(Fail)
      ensures ok ==>
        && ("params" in imprt ==> imprt["params"].Map?)
        && params == (if "params" in imprt then imprt["params"].entries else map[])
        && (imprt.Keys <= {"params"} ==> name == "")
        && (!(imprt.Keys <= {"params"}) ==> name in imprt && name != "params" && FileOf(rootPath, imprt[name]) == Some(path))
        && forall k :: k in imprt && k != "params" ==> FileOf(rootPath, imprt[k]).Some?
    {
      hide Target, FileOf;
      name, path, params := "", "", map[];
      var todo := imprt.Keys;
      ghost var seen: set<string> := {};
      while todo != {}
        invariant todo !! seen && todo + seen == imprt.Keys
        invariant "params" in seen ==> imprt["params"].Map?
        invariant params == if "params" in seen then imprt["params"].entries else map[]
        invariant seen <= {"params"} ==> name == ""
        invariant !(seen <= {"params"}) ==>
          name in seen && name != "params" && FileOf(rootPath, imprt[name]) == Some(path)
        invariant forall k :: k in seen && k != "params" ==> FileOf(rootPath, imprt[k]).Some?
      {
        var key :| key in todo;
        if key == "params" {
          if !imprt[key].Map? {
            BadParams(rootPath, imprt);
            return false, name, path, params;
          }
          params := imprt[key].entries;
        } else {
          name := key;
          var resolved := FileOf(rootPath, imprt[key]);
          if resolved.None? {
            NoTarget(rootPath, imprt, key);
            return false, name, path, params;
          }
          path := resolved.value;
        }
        todo := todo - {key};
        seen := seen + {key};
      }
      assert seen == imprt.Keys;
      return true, name, path, params;
    }

    lemma BadParams(path: string, decl: Dict)
      requires "params" in decl && !decl["params"].Map?
      ensures Target(path, decl) == Known(Fail)
    {
    }

    lemma TargetRead(path: string, decl: Dict, name: string, target: string)
      requires 0 < |decl| <= 2 && ("params" in decl ==> decl["params"].Map?)
      requires decl.Keys <= {"params"} ==> name == ""
      requires !(decl.Keys <= {"params"}) ==>
        name in decl && name != "params" && FileOf(path, decl[name]) == Some(target)
      requires forall k :: k in decl && k != "params" ==> FileOf(path, decl[k]).Some?
      ensures Agrees(if name == "" then Fail else Ok((name, target)), Target(path, decl))
    {
      TargetNames(decl, name);
    }

    lemma NoTarget(path: string, decl: Dict, key: string)
      requires key in decl && key != "params"
      requires FileOf(path, decl[key]).None?
      ensures 0 < |decl| <= 2 ==> Target(path, decl) == Known(Fail)
    {
      assert key in decl.Keys - {"params"};
    }

    lemma {:induction false} ComponentsStuck(path: string, objs: seq<Dict>, i: nat, frames: nat)
      requires i <= |objs| && ComponentsOf(path, objs[..i], frames).IsFailure()
      ensures ComponentsOf(path, objs, frames) == ComponentsOf(path, objs[..i], frames)
      decreases |objs|
    {
      if i == |objs| {
        assert objs[..i] == objs;
      } else {
        assert objs[..|objs| - 1][..i] == objs[..i];
        ComponentsStuck(path, objs[..|objs| - 1], i, frames);
      }
    }

    lemma {:induction false} ImportsStuck(path: string, items: seq<Value>, i: nat, frames: nat)
      requires i <= |items| && ImportsOf(path, items[..i], frames).IsFailure()
      ensures ImportsOf(path, items, frames) == ImportsOf(path, items[..i], frames)
      decreases |items|
    {
      if i == |items| {
        assert items[..i] == items;
      } else {
        assert items[..|items| - 1][..i] == items[..i];
        ImportsStuck(path, items[..|items| - 1], i, frames);
      }
    }
  }

  lemma TargetNames(decl: Dict, name: string)
    requires !(decl.Keys <= {"params"}) ==> name in decl && name != "params"
    ensures var names := decl.Keys - {"params"};
      && (|names| == 0 <==> decl.Keys <= {"params"})
      && (|names| == 1 ==> Only(names) == name)
  {
    var names := decl.Keys - {"params"};
    if decl.Keys <= {"params"} {
      assert names == {};
    } else {
      assert name in names;
    }
  }
}
