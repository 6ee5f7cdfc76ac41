/** Whatever the declarations allow is read, where no map order decides. */
module ReadingLaws {
  import opened Outcomes
  import opened Values
  import opened ModuleTrees
  import opened ModuleFiles

  ghost predicate IsRead<T(!new)>(r: Reading<T>, value: T) {
    r.OrderMatters? || r == Known(Ok(value))
  }

  // ----- Param definitions -----

  lemma DefinitionRead(v: Value, name: string, def: ParamDef)
    requires Defines(v, name, def)
    ensures IsRead(ParamDefOf(v), (name, def))
  {
    if v.Map? {
      NamesAre(v.entries, name);
    }
  }

  /** The last definition of a name. */
  lemma {:induction false} LastExists(defs: seq<(string, ParamDef)>, j: nat) returns (k: nat)
    requires j < |defs|
    ensures j <= k < |defs| && defs[k].0 == defs[j].0 && IsLast(defs, k)
    decreases |defs| - j
  {
    k := j;
    if !IsLast(defs, j) {
      var l :| j < l < |defs| && defs[l].0 == defs[j].0;
      k := LastExists(defs, l);
    }
  }

  lemma LastDecides(defs: seq<(string, ParamDef)>, params: map<string, ParamDef>, others: map<string, ParamDef>)
    requires LastOfEach(defs, params) && LastOfEach(defs, others)
    ensures params == others
  {
    forall k | k in params
      ensures k in others && params[k] == others[k]
    {
      assert Named(defs, k);
      var j :| 0 <= j < |defs| && defs[j].0 == k;
      var last := LastExists(defs, j);
    }
    forall k | k in others
      ensures k in params
    {
      assert Named(defs, k);
    }
  }

  lemma {:induction false} DefinitionsRead(items: seq<Value>, defs: seq<(string, ParamDef)>) returns (params: map<string, ParamDef>)
    requires DefinesAll(items, defs)
    ensures LastOfEach(defs, params) && IsRead(ParamDefsOf(items), params)
    decreases |items|
  {
    hide LastOfEach, Defines, ParamDefOf;
    if items == [] {
      NoneOfEach();
      params := map[];
    } else {
      var n := |items| - 1;
      var before := DefinitionsRead(items[..n], defs[..n]);
      DefinitionRead(items[n], defs[n].0, defs[n].1);
      OneMoreDef(defs[..n], before, defs[n].0, defs[n].1);
      assert defs == defs[..n] + [(defs[n].0, defs[n].1)];
      params := before[defs[n].0 := defs[n].1];
    }
  }

  lemma ParamsRead(obj: Dict, params: map<string, ParamDef>)
    requires DefinesParams(obj, params)
    ensures IsRead(ParamsSection(obj), params)
  {
    if "params" in obj {
      var defs :| DefinesAll(obj["params"].items, defs) && LastOfEach(defs, params);
      var read := DefinitionsRead(obj["params"].items, defs);
      LastDecides(defs, params, read);
    }
  }

  // ----- Files -----

  lemma {:induction false} TreesRead(files: Files, path: string, trees: seq<ModuleTree>, frames: nat)
    requires files.Reads(path, trees, frames)
    ensures IsRead(files.TreesOf(path, frames), trees)
    decreases frames, 5
  {
    hide Files.ComponentsOf;
    ComponentsRead(files, path, files.readFromPath(path).value, trees, frames);
  }

  lemma {:induction false} ComponentsRead(files: Files, path: string, objs: seq<Dict>, trees: seq<ModuleTree>, frames: nat)
    requires files.ReadsEach(path, objs, trees, frames)
    ensures IsRead(files.ComponentsOf(path, objs, frames), trees)
    decreases frames, 4, |objs|
  {
    hide Files.ComponentOf, Files.ReadsModule;
    if objs == [] {
      files.NoComponents(path, objs, frames);
    } else {
      var n := |objs| - 1;
      ComponentsRead(files, path, objs[..n], trees[..n], frames);
      ComponentRead(files, path, objs[n], trees[n], frames);
      assert trees == trees[..n] + [trees[n]];
    }
  }

  lemma {:induction false} ComponentRead(files: Files, path: string, obj: Dict, t: ModuleTree, frames: nat)
    requires files.ReadsModule(path, obj, t, frames)
    ensures IsRead(files.ComponentOf(path, obj, frames), t)
    decreases frames, 3
  {
    hide Files.ImportsOf, Files.ReadsAll, ParamsSection, DefinesParams;
    if "imports" in obj {
      ImportsRead(files, path, obj["imports"].items, t.imports, frames);
    }
    ParamsRead(obj, t.params);
    files.ComponentIs(path, obj, frames);
    RawIsLeft(obj, t.raw);
  }

  lemma RawIsLeft(obj: Dict, raw: Dict)
    requires exists k :: obj.Keys - {"imports", "params"} == {k} && raw == map[k := obj[k]]
    ensures WithoutSections(obj) == raw && |raw| == 1
  {
    var k :| obj.Keys - {"imports", "params"} == {k} && raw == map[k := obj[k]];
    assert WithoutSections(obj).Keys == obj.Keys - {"imports", "params"};
    assert k in obj.Keys - {"imports", "params"};
  }

  lemma {:induction false} ImportsRead(files: Files, path: string, decls: seq<Value>, imports: seq<ImportTree>, frames: nat)
    requires files.ReadsAll(path, decls, imports, frames)
    ensures IsRead(files.ImportsOf(path, decls, frames), imports)
    decreases frames, 2, |decls|
  {
    hide Files.ImportOf, Files.ReadsImport;
    if decls == [] {
      files.NoImports(path, decls, frames);
    } else {
      var n := |decls| - 1;
      ImportsRead(files, path, decls[..n], imports[..n], frames);
      ImportRead(files, path, decls[n].entries, imports[n], frames);
      assert imports == imports[..n] + [imports[n]];
    }
  }

  lemma {:induction false} ImportRead(files: Files, path: string, decl: Dict, imp: ImportTree, frames: nat)
    requires files.ReadsImport(path, decl, imp, frames)
    ensures IsRead(files.ImportOf(path, decl, frames), imp)
    decreases frames, 1
  {
    hide Files.TreesOf, Files.Reads;
    TargetNames(decl, imp.name);
    var target := files.resolveImportPath(path, decl[imp.name].s).value;
    var trees :| files.Reads(target, trees, frames - 1) && trees != [] && imp.mod == trees[0];
    TreesRead(files, target, trees, frames - 1);
  }

  // ----- And nothing else -----

  lemma DefinitionAllows(v: Value)
    ensures var r := ParamDefOf(v); !r.IsFailure() ==> Defines(v, r.Extract().0, r.Extract().1)
  {
    if v.Map? && !ParamDefOf(v).IsFailure() {
      var names := v.entries.Keys - {"default"};
      assert |names| == 0 ==> names == {};
      if |names| == 1 {
        assert Only(names) in names;
      }
    }
  }

  lemma {:induction false} DefinitionsAllow(items: seq<Value>) returns (defs: seq<(string, ParamDef)>)
    requires !ParamDefsOf(items).IsFailure()
    ensures DefinesAll(items, defs) && LastOfEach(defs, ParamDefsOf(items).outcome.value)
    decreases |items|
  {
    hide LastOfEach, Defines, ParamDefOf;
    defs := [];
    if items == [] {
      NoneOfEach();
    } else {
      var n := |items| - 1;
      defs := DefinitionsAllow(items[..n]);
      DefinitionAllows(items[n]);
      var last := ParamDefOf(items[n]).outcome.value;
      OneMoreDef(defs, ParamDefsOf(items[..n]).outcome.value, last.0, last.1);
      defs := defs + [last];
    }
  }

  lemma ParamsAllow(obj: Dict)
    ensures !ParamsSection(obj).IsFailure() ==> DefinesParams(obj, ParamsSection(obj).outcome.value)
  {
    hide LastOfEach, DefinesAll;
    if "params" in obj && !ParamsSection(obj).IsFailure() {
      var defs := DefinitionsAllow(obj["params"].items);
    }
  }

  /** What is read is what the declarations say. */
  lemma {:induction false} TreesAllowed(files: Files, path: string, frames: nat)
    ensures !files.TreesOf(path, frames).IsFailure() ==> files.Reads(path, files.TreesOf(path, frames).outcome.value, frames)
    decreases frames, 5
  {
    hide Files.ComponentsOf, Files.ReadsEach;
    if files.readFromPath(path).Some? {
      ComponentsAllowed(files, path, files.readFromPath(path).value, frames);
    }
  }

  lemma {:induction false} ComponentsAllowed(files: Files, path: string, objs: seq<Dict>, frames: nat)
    ensures !files.ComponentsOf(path, objs, frames).IsFailure() ==>
      files.ReadsEach(path, objs, files.ComponentsOf(path, objs, frames).outcome.value, frames)
    decreases frames, 4, |objs|
  {
    hide Files.ComponentOf, Files.ReadsModule;
    if objs == [] {
      files.NoComponents(path, objs, frames);
    } else if !files.ComponentsOf(path, objs, frames).IsFailure() {
      var n := |objs| - 1;
      ComponentsAllowed(files, path, objs[..n], frames);
      ComponentAllowed(files, path, objs[n], frames);
      files.ReadsOneMore(path, objs, files.ComponentsOf(path, objs[..n], frames).outcome.value, n,
        files.ComponentOf(path, objs[n], frames).outcome.value, frames);
      assert objs[..n + 1] == objs;
    }
  }

  lemma {:induction false} ComponentAllowed(files: Files, path: string, obj: Dict, frames: nat)
    ensures !files.ComponentOf(path, obj, frames).IsFailure() ==>
      files.ReadsModule(path, obj, files.ComponentOf(path, obj, frames).outcome.value, frames)
    decreases frames, 3
  {
    hide Files.ImportsOf, Files.ReadsAll, ParamsSection, DefinesParams, Files.ComponentOf, WithoutSections;
    if !files.ComponentOf(path, obj, frames).IsFailure() {
      files.ComponentIs(path, obj, frames);
      if "imports" in obj {
        ImportsAllowed(files, path, obj["imports"].items, frames);
      }
      ParamsAllow(obj);
      files.OneLeft(obj);
    }
  }

  lemma {:induction false} ImportsAllowed(files: Files, path: string, decls: seq<Value>, frames: nat)
    ensures !files.ImportsOf(path, decls, frames).IsFailure() ==>
      files.ReadsAll(path, decls, files.ImportsOf(path, decls, frames).outcome.value, frames)
    decreases frames, 2, |decls|
  {
    hide Files.ImportOf, Files.ReadsImport;
    if decls == [] {
      files.NoImports(path, decls, frames);
    } else if !files.ImportsOf(path, decls, frames).IsFailure() {
      var n := |decls| - 1;
      ImportsAllowed(files, path, decls[..n], frames);
      ImportAllowed(files, path, decls[n].entries, frames);
    }
  }

  lemma {:induction false} ImportAllowed(files: Files, path: string, decl: Dict, frames: nat)
    ensures !files.ImportOf(path, decl, frames).IsFailure() ==>
      files.ReadsImport(path, decl, files.ImportOf(path, decl, frames).outcome.value, frames)
    decreases frames, 1
  {
    hide Files.TreesOf, Files.Reads;
    if !files.ImportOf(path, decl, frames).IsFailure() {
      var names := decl.Keys - {"params"};
      assert Only(names) in names;
      TreesAllowed(files, files.Target(path, decl).outcome.value.1, frames - 1);
    }
  }

  /** An import of a file that holds no module is an index out of range. */
  lemma EmptyFileCrashes(files: Files, path: string, decl: Dict, name: string, frames: nat)
    requires name != "" && name != "params" && decl.Keys <= {name, "params"} && name in decl && ("params" in decl ==> decl["params"].Map?)
    requires decl[name].Str? && files.resolveImportPath(path, decl[name].s).Some?
    requires frames > 0 && files.readFromPath(files.resolveImportPath(path, decl[name].s).value) == Some([])
    ensures files.ImportOf(path, decl, frames) == Known(Crash)
  {
    assert decl.Keys - {"params"} == {name};
    assert decl.Keys == {name} || decl.Keys == {name, "params"};
    assert |decl| == |decl.Keys|;
    TargetNames(decl, name);
    files.NoComponents(files.resolveImportPath(path, decl[name].s).value, [], frames - 1);
  }
}
