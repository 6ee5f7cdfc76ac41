/** Files to evaluated modules: reading, unfolding and evaluating together. */
module Loading {
  import opened Outcomes
  import opened Values
  import opened ModuleTrees
  import opened Evaluator
  import opened ModuleFiles

  /** The module was evaluated to what its text means, and could be typed. */
  ghost predicate Loaded(ctx: EvalContext, m: Module, t: ModuleTree)
    reads m
  {
    && EvalModule(t, map[]) == Ok(m.raw)
    && m.typed == ctx.rawToTyped(m.raw)
    && !m.typed.TypeError?
  }

  /** Nothing stands in the way of that. */
  ghost predicate Loadable(ctx: EvalContext, t: ModuleTree, frames: nat) {
    && frames >= Depth(t)
    && EvalModule(t, map[]).Ok?
    && !ctx.rawToTyped(EvalModule(t, map[]).value).TypeError?
  }

  ghost function Objects(mods: seq<Module>): set<object> {
    set i, o | 0 <= i < |mods| && o in mods[i].repr :: o
  }

  method EvaluateAll(files: Files, ctx: EvalContext, modules: seq<Module>, ghost trees: seq<ModuleTree>, frames: nat)
    returns (ok: bool)
    requires files.Built(modules, trees)
    modifies Objects(modules)
    ensures ok ==> forall i :: 0 <= i < |modules| ==> Loaded(ctx, modules[i], trees[i])
    ensures (forall t :: t in trees ==> Loadable(ctx, t, frames)) ==> ok
  {
    InOwnRepr(modules);
    hide WellFormed, Pristine, EvalModule, Loadable, Loaded, Objects;
    for k := 0 to |modules|
      invariant Half(ctx, modules, trees, k)
    {
      var typed := EvaluateNext(files, ctx, modules, trees, k, frames);
      assert trees[k] in trees;
      if !typed {
        return false;
      }
    }
    return true;
  }

  /** The modules before `k` are loaded, the others untouched. */
  ghost predicate Half(ctx: EvalContext, modules: seq<Module>, trees: seq<ModuleTree>, k: nat)
    requires |modules| == |trees| && forall i :: 0 <= i < |modules| ==> WellFormed(modules[i]) && modules[i] in modules[i].repr
    reads Objects(modules)
  {
    && (forall i :: 0 <= i < k && i < |modules| ==> Loaded(ctx, modules[i], trees[i]))
    && (forall i :: k <= i < |modules| ==> Pristine(modules[i]))
  }

  /** One round of the loop. */
  method EvaluateNext(files: Files, ctx: EvalContext, modules: seq<Module>, ghost trees: seq<ModuleTree>, k: nat, frames: nat)
    returns (ok: bool)
    requires k < |modules| == |trees|
    requires forall i :: 0 <= i < |modules| ==> WellFormed(modules[i]) && modules[i] in modules[i].repr && modules[i].tree == trees[i]
    requires forall i, j :: 0 <= i < j < |modules| ==> modules[i].repr !! modules[j].repr
    requires Half(ctx, modules, trees, k)
    modifies modules[k].repr
    ensures ok ==> Half(ctx, modules, trees, k + 1)
    ensures Loadable(ctx, trees[k], frames) ==> ok
  {
    hide WellFormed, Pristine, EvalModule, Loadable, Objects;
    ok := EvaluateFresh(ctx, modules[k], frames);
  }

  lemma InOwnRepr(modules: seq<Module>)
    requires forall i :: 0 <= i < |modules| ==> WellFormed(modules[i])
    ensures forall i :: 0 <= i < |modules| ==> modules[i] in modules[i].repr && modules[i].repr <= Objects(modules)
  {
  }

  /** EvaluateModule without arguments on a module just parsed, and the check of its type. */
  method EvaluateFresh(ctx: EvalContext, m: Module, frames: nat) returns (ok: bool)
    requires WellFormed(m) && Pristine(m)
    modifies m.repr
    ensures ok ==> Loaded(ctx, m, m.tree)
    ensures Loadable(ctx, m.tree, frames) ==> ok
  {
    var args: Dict := map[];
    RoomEmpty(m.tree);
    ctx.PristineReady(m, args);
    var r, filled := ctx.EvaluateModule(m, args, frames, true);
    return r.Ok? && !m.typed.TypeError?;
  }

  /** The modules of all the files, in order. */
  function AllTrees(files: Files, filenames: seq<string>, frames: nat): Reading<seq<ModuleTree>> {
    if filenames == [] then Known(Ok([]))
    else
      var before :- AllTrees(files, filenames[..|filenames| - 1], frames);
      var last :- files.TreesOf(filenames[|filenames| - 1], frames);
      Known(Ok(before + last))
  }

  lemma AllTreesSnoc(files: Files, filenames: seq<string>, i: nat, frames: nat)
    requires i < |filenames|
    ensures AllTrees(files, filenames[..i + 1], frames) ==
      match (AllTrees(files, filenames[..i], frames), files.TreesOf(filenames[i], frames))
      case (Known(Ok(before)), Known(Ok(last))) => Known(Ok(before + last))
      case (Known(Ok(_)), failed) => failed
      case (failed, _) => failed
  {
    assert filenames[..i + 1][..i] == filenames[..i];
  }

  /** loadKokiFiles: whatever it returns is, in order, what the modules of the files mean, and was
      typed; and it returns if every module can be evaluated and typed. */
  method LoadKokiFiles(files: Files, ctx: EvalContext, filenames: seq<string>, frames: nat)
    returns (r: Outcome<seq<Module>>, ghost trees: seq<ModuleTree>)
    ensures r.Ok? ==>
      && Agrees(Ok(trees), AllTrees(files, filenames, frames))
      && |r.value| == |trees|
      && forall i :: 0 <= i < |trees| ==> Loaded(ctx, r.value[i], trees[i])
    ensures match AllTrees(files, filenames, frames)
            case Known(Ok(all)) => (forall t :: t in all ==> Loadable(ctx, t, frames)) ==> r.Ok?
            case _ => true
  {
    hide Files.TreesOf, Loadable, AllTrees, WellFormed, Pristine, EvalModule;
    trees := [];
    var results: seq<Module> := [];
    NoFiles(files, filenames, frames);
    for i := 0 to |filenames|
      invariant Agrees(Ok(trees), AllTrees(files, filenames[..i], frames))
      invariant |results| == |trees| && forall j :: 0 <= j < |trees| ==> Loaded(ctx, results[j], trees[j])
    {
      AllTreesSnoc(files, filenames, i, frames);
      AllTreesGrow(files, filenames, i + 1, frames);
      var modules, read := files.Parse(filenames[i], frames);
      if !modules.Ok? {
        return modules.PropagateFailure(), [];
      }
      assert Objects(modules.value) !! set j | 0 <= j < |results| :: results[j];
      var ok := EvaluateAll(files, ctx, modules.value, read, frames);
      if !ok {
        return Fail, [];
      }
      results, trees := results + modules.value, trees + read;
    }
    assert filenames[..|filenames|] == filenames;
    return Ok(results), trees;
  }

  lemma NoFiles(files: Files, filenames: seq<string>, frames: nat)
    ensures AllTrees(files, filenames[..0], frames) == Known(Ok([]))
  {
  }

  /** Reading more files only adds modules. */
  lemma {:induction false} AllTreesGrow(files: Files, filenames: seq<string>, i: nat, frames: nat)
    requires i <= |filenames|
    ensures var all, some := AllTrees(files, filenames, frames), AllTrees(files, filenames[..i], frames);
      if some.IsFailure() then all == some
      else all.IsFailure() || forall t :: t in some.outcome.value ==> t in all.outcome.value
    decreases |filenames|
  {
    if i == |filenames| {
      assert filenames[..i] == filenames;
    } else {
      assert filenames[..|filenames| - 1][..i] == filenames[..i];
      AllTreesGrow(files, filenames[..|filenames| - 1], i, frames);
    }
  }
}
