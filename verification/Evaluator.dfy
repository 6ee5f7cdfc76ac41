/** The lazy, memoising evaluator of imports/eval.go, imports/template_resolver.go and
    template/template.go.

    Modules and imports are objects that evaluation overwrites in place. The fields no method
    assigns are constants; `tree` is the text a module was parsed from. A resolver closure
    captures a module and its params, so the template methods take those two instead.

    `frames` is how many nested import evaluations the goroutine stack still has room for.
    Ghost parameters: `stack` holds the sibling imports under way, and `clean` says that the imports are
    known to be consistent: nothing has failed yet in this run, or nothing that is substituted has holes
    (otherwise, after a failure, an import may hold params that are scanned for holes once more). */
module Evaluator {
  import opened Outcomes
  import opened Values
  import opened Templates
  import opened ModuleTrees
  import opened PlainModules
  import opened Relapse
  import Holes

  /** Resource.TypedResult: unset, the typed object, or the error from parsing it. */
  datatype Typed = Unset | Typed(value: Value) | TypeError

  class Import {
    const name: string
    const mod: Module
    var params: Dict
    var isEvaluated: bool
    ghost const tree: ImportTree

    constructor (name: string, params: Dict, mod: Module)
      ensures this.name == name && this.params == params && this.mod == mod && !isEvaluated
      ensures tree == ImportTree(name, params, mod.tree)
    {
      this.name, this.params, this.mod, isEvaluated := name, params, mod, false;
      tree := ImportTree(name, params, mod.tree);
    }
  }

  class Module {
    const params: map<string, ParamDef>
    const imports: seq<Import>
    var isEvaluated: bool
    var raw: Dict
    var typed: Typed
    ghost const tree: ModuleTree
    /** The module and everything below it. */
    ghost const repr: set<object>

    constructor (params: map<string, ParamDef>, imports: seq<Import>, raw: Dict, ghost tree: ModuleTree, ghost below: set<object>)
      requires Separate(imports, below) && forall o :: o in below ==> allocated(o)
      requires forall i :: 0 <= i < |imports| ==> Waiting(imports[i])
      requires tree.params == params && tree.raw == raw && |tree.imports| == |imports|
      requires forall i :: 0 <= i < |imports| ==> tree.imports[i] == imports[i].tree
      ensures WellFormed(this) && Pristine(this)
      ensures this.params == params && this.imports == imports && this.raw == raw
      ensures this.tree == tree && repr == {this} + below && fresh(this)
    {
      this.params, this.imports, this.raw := params, imports, raw;
      isEvaluated, typed := false, Unset;
      this.tree := tree;
      repr := {this} + below;
    }
  }

  ghost function Owned(imp: Import): set<object> {
    {imp} + imp.mod.repr
  }

  /** Imports that can become the imports of one new module; `below` holds all their objects. */
  ghost predicate Separate(imports: seq<Import>, below: set<object>) {
    && (forall i :: 0 <= i < |imports| ==>
      && WellFormed(imports[i].mod)
      && imports[i].tree.name == imports[i].name
      && imports[i].tree.mod == imports[i].mod.tree
      && imports[i] !in imports[i].mod.repr
      && Owned(imports[i]) <= below)
    && (forall i, j :: 0 <= i < j < |imports| ==> Owned(imports[i]) !! Owned(imports[j]))
  }

  /** The objects below a module form a tree of the shape of its text. */
  ghost predicate WellFormed(m: Module)
    decreases m.tree
  {
    && m in m.repr
    && m.params == m.tree.params
    && |m.imports| == |m.tree.imports|
    && (forall i :: 0 <= i < |m.imports| ==>
      && m.imports[i].tree == m.tree.imports[i]
      && m.imports[i].name == m.tree.imports[i].name
      && m.imports[i].mod.tree == m.tree.imports[i].mod
      && WellFormed(m.imports[i].mod)
      && Owned(m.imports[i]) <= m.repr - {m}
      && m.imports[i] !in m.imports[i].mod.repr)
    && (forall i, j :: 0 <= i < j < |m.imports| ==> Owned(m.imports[i]) !! Owned(m.imports[j]))
  }

  // ----- States of the object tree -----

  ghost predicate Waiting(imp: Import)
    requires WellFormed(imp.mod)
    reads Owned(imp)
    decreases imp.mod.tree, 1
  {
    !imp.isEvaluated && imp.params == imp.tree.params && Pristine(imp.mod)
  }

  /** Nothing below the module has been touched since parsing. */
  ghost predicate Pristine(m: Module)
    requires WellFormed(m)
    reads m.repr
    decreases m.tree, 0
  {
    !m.isEvaluated && m.raw == m.tree.raw && forall i :: 0 <= i < |m.imports| ==> Waiting(m.imports[i])
  }

  /** The imports not yet evaluated. */
  ghost function Open(m: Module): (open: set<nat>)
    reads m.imports
    ensures open <= UpTo(|m.imports|)
  {
    set i: nat | i in UpTo(|m.imports|) && !m.imports[i].isEvaluated
  }

  class EvalContext {
    const rawToTyped: Dict -> Typed

    constructor (rawToTyped: Dict -> Typed)
      ensures this.rawToTyped == rawToTyped
    {
      this.rawToTyped := rawToTyped;
    }

    /** Import `i` was evaluated once, from its own text, without needing any import in `open`. */
    ghost predicate Evaluated(m: Module, p: Dict, open: set<nat>, i: nat)
      requires WellFormed(m) && i < |m.imports|
      reads Owned(m.imports[i])
      decreases m.imports[i].mod.tree, 2
    {
      var imp := m.imports[i];
      var args := ReplaceEntries(m.tree.imports[i].params, ResolverOf(m.tree, p, open));
      && imp.isEvaluated
      && args.Ok?
      && imp.params == FillDefaults(imp.mod.params, args.value)
      && Finished(imp.mod, args.value)
    }

    /** Import `i` holds its substituted params, which have no holes left, but its module has failed
        and will fail again. */
    ghost predicate Begun(m: Module, p: Dict, open: set<nat>, i: nat)
      requires WellFormed(m) && i < |m.imports|
      reads Owned(m.imports[i])
      decreases m.imports[i].mod.tree, 3
    {
      var imp := m.imports[i];
      var args := ReplaceEntries(m.tree.imports[i].params, ResolverOf(m.tree, p, open));
      && !imp.isEvaluated
      && args.Ok?
      && imp.params == FillDefaults(imp.mod.params, args.value)
      && PlainDict(imp.params)
      && Ready(imp.mod, args.value)
      && !EvalModule(imp.mod.tree, args.value).Ok?
    }

    /** The module can be evaluated with these arguments: it is untouched, or has failed with them. */
    ghost predicate Ready(m: Module, args: Dict)
      requires WellFormed(m)
      reads m.repr
      decreases m.tree, 2
    {
      && !m.isEvaluated && m.raw == m.tree.raw
      && Consistent(m, FillDefaults(m.params, args))
      && (Open(m) == Indices(m.tree) || !EvalModule(m.tree, args).Ok?)
    }

    /** Import `i` is untouched, completely evaluated, or has failed for good. */
    ghost predicate Settled(m: Module, p: Dict, open: set<nat>, i: nat)
      requires WellFormed(m) && i < |m.imports|
      reads Owned(m.imports[i])
      decreases m.imports[i].mod.tree, 4
    {
      if m.imports[i].isEvaluated then Evaluated(m, p, open, i) else Waiting(m.imports[i]) || Begun(m, p, open, i)
    }

    ghost predicate Consistent(m: Module, p: Dict)
      requires WellFormed(m)
      reads m.repr
      decreases m.tree, 0
    {
      forall i :: 0 <= i < |m.imports| ==> Settled(m, p, Open(m), i)
    }

    /** The module holds its own denotation, and exactly the imports its export needs are evaluated. */
    ghost predicate Finished(m: Module, args: Dict)
      requires WellFormed(m)
      reads m.repr
      decreases m.tree, 1
    {
      var p := FillDefaults(m.params, args);
      && m.isEvaluated
      && EvalModule(m.tree, args) == Ok(m.raw)
      && m.typed == rawToTyped(m.raw)
      && Consistent(m, p)
      && forall i :: 0 <= i < |m.imports| ==>
        (m.imports[i].isEvaluated <==> Reachable(m.tree, p.Keys, Refs(m.tree, p.Keys, EntriesIdents(m.tree.raw)), i))
    }

    /** Import `i` cannot be evaluated: what has to be filled first leads to an import that cannot
        be evaluated either. */
    ghost predicate Trapped(m: Module, p: Dict, i: nat)
      requires WellFormed(m)
      reads m.imports
    {
      exists loop: set<nat> :: i in loop && Loop(m, p, loop)
    }

    ghost predicate Loop(m: Module, p: Dict, loop: set<nat>)
      requires WellFormed(m)
      reads m.imports
    {
      forall i :: i in loop ==>
        i < |m.imports| && !m.imports[i].isEvaluated && EntriesLead(m.tree, p.Keys, loop, m.imports[i].params)
    }

    ghost predicate IdentTrapped(m: Module, p: Dict, ident: string)
      requires WellFormed(m)
      reads m.imports
    {
      var i := Target(m.tree, p.Keys, ident);
      i.Some? && Trapped(m, p, i.value)
    }

    /** Filling the text needs a trapped import at once, or needs an import again that it has trapped. */
    ghost predicate TextDoomed(m: Module, p: Dict, text: Holes.Template, clean: bool)
      requires WellFormed(m)
      reads m.imports
    {
      text.Cut? && (IdentTrapped(m, p, text.ident) || (clean && Relapses(m.tree, p, text)))
    }

    ghost predicate Doomed(m: Module, p: Dict, v: Value, clean: bool)
      requires WellFormed(m)
      reads m.imports
    {
      v.Str? && TextDoomed(m, p, Holes.Parse(v.s), clean)
    }

    ghost predicate EntriesDoomed(m: Module, p: Dict, entries: Dict, clean: bool)
      requires WellFormed(m)
      reads m.imports
    {
      entries != map[] && forall k :: k in entries ==> Doomed(m, p, entries[k], clean)
    }

    // ----- imports/eval.go -----

    method EvaluateImport(m: Module, p: Dict, imp: Import, frames: nat, ghost i: nat, ghost stack: set<nat>, ghost clean: bool)
      returns (r: Outcome<()>)
      requires WellFormed(m) && i < |m.imports| && m.imports[i] == imp
      requires clean ==> Consistent(m, p)
      modifies m.repr - {m}
      ensures clean && r.Ok? ==> Consistent(m, p) && i !in Open(m)
      ensures clean && r.Ok? ==> ReachedThrough(m.tree, p.Keys, i, old(Open(m)), Open(m))
      ensures clean && r.Fail? ==> !EvalImport(m.tree, p, {}, i).Ok?
      ensures clean && Safe(m.tree, p, stack, frames, EvalImport(m.tree, p, stack, i), true) ==> !r.Crash?
      ensures clean && r.Fail? && Calm(m.tree, p) ==> Consistent(m, p)
      ensures old(imp.isEvaluated) ==> r == Ok(()) && unchanged(m.repr)
      ensures clean && r.Fail? && LeftCircular(m.tree, p, i) ==> Trapped(m, p, i)
      ensures old(Trapped(m, p, i)) ==> r.Crash?
      decreases frames, 2
    {
      if imp.isEvaluated {
        return Ok(());
      }
      hide FilledFor, Ready, Settled, Calm, Safe, Reached, ReachedThrough, EvalImport, EvalModule, LeftCircular, Trapped;
      // Siblings may get evaluated while the params are substituted.
      var params := FillParams(m, p, imp, frames, i, stack, clean);
      if !params.Ok? {
        return params.PropagateFailure();
      }
      ghost var open := Open(m);
      r := EvaluateFilledImport(m, p, imp, params.value, frames - 1, i, open, clean);
    }

    /** The part of EvaluateImport that substitutes into the import's params. */
    method FillParams(m: Module, p: Dict, imp: Import, frames: nat, ghost i: nat, ghost stack: set<nat>, ghost clean: bool)
      returns (params: Outcome<Dict>)
      requires WellFormed(m) && i < |m.imports| && m.imports[i] == imp && !imp.isEvaluated
      requires clean ==> Consistent(m, p)
      modifies m.repr - {m}
      ensures params.Ok? ==> frames > 0
      ensures clean && params.Ok? ==>
        && Consistent(m, p) && i in Open(m)
        && FilledFor(m.tree, p, Open(m), i, params.value) && Ready(imp.mod, params.value)
        && ReachedThrough(m.tree, p.Keys, i, old(Open(m)), Open(m) - {i})
        && EvalImport(m.tree, p, {}, i) == EvalModule(imp.mod.tree, params.value)
        && (Safe(m.tree, p, stack, frames, EvalImport(m.tree, p, stack, i), true) ==>
          Safe(imp.mod.tree, params.value, {}, frames - 1, EvalModule(imp.mod.tree, params.value), true))
      ensures clean && params.Fail? ==> !EvalImport(m.tree, p, {}, i).Ok? && !LeftCircular(m.tree, p, i)
      ensures clean && params.Fail? && Calm(m.tree, p) ==> Consistent(m, p)
      ensures clean && Safe(m.tree, p, stack, frames, EvalImport(m.tree, p, stack, i), true) ==> !params.Crash?
      ensures old(Trapped(m, p, i)) ==> params.Crash?
      decreases frames, 1
    {
      hide Held, FilledFor, Ready, Settled, Calm, Safe, Reached, ReachedThrough, EvalImport, EvalModule, LeftCircular, Doomed, EntriesDoomed, Trapped, Consistent, OneHoleEntries;
      ghost var before := Open(m);
      ghost var held := imp.params;
      assert clean ==> Held(m.tree, p, before, i, held) by {
        if clean {
          HoldsParams(m, p, i);
        }
      }
      ghost var safe := clean && Safe(m.tree, p, stack, frames, EvalImport(m.tree, p, stack, i), true);
      if safe {
        HeldSafe(m.tree, p, before, stack, frames, i, held);
      }
      TrappedParams(m, p, i, clean);
      if frames == 0 {
        return Crash;
      }
      params := ReplaceMap(m, p, imp.params, frames - 1, stack + {i}, clean);
      if clean && params.Fail? {
        HeldFails(m.tree, p, before, i, held);
      }
      if clean && params.Ok? {
        AfterFilling(m, p, before, i, held, params.value, stack, frames);
      }
    }

    /** The rest of EvaluateImport, once the params are filled. */
    method EvaluateFilledImport(m: Module, p: Dict, imp: Import, args: Dict, frames: nat, ghost i: nat, ghost open: set<nat>, ghost clean: bool)
      returns (r: Outcome<()>)
      requires WellFormed(m) && i < |m.imports| && m.imports[i] == imp
      requires clean ==> Consistent(m, p) && open == Open(m) && i in open
      requires clean ==> FilledFor(m.tree, p, open, i, args) && Ready(imp.mod, args)
      modifies Owned(imp)
      ensures clean && r.Ok? ==> Consistent(m, p) && Open(m) == open - {i}
      ensures clean && r.Fail? ==> !EvalModule(imp.mod.tree, args).Ok?
      ensures clean && r.Fail? && Calm(m.tree, p) ==> Consistent(m, p)
      ensures clean && r.Fail? && LeftCircular(m.tree, p, i) ==> Trapped(m, p, i)
      ensures clean && Safe(imp.mod.tree, args, {}, frames, EvalModule(imp.mod.tree, args), true) ==> !r.Crash?
      decreases frames, 10
    {
      hide LeftCircular, Trapped, Consistent;
      r := RunModule(m, p, imp, args, frames, i, open, clean);
      if r.Ok? {
        MarkImport(m, p, imp, args, i, open, clean);
      } else if clean && r.Fail? {
        LeftTrapped(m, p, open, i, args);
        if Calm(m.tree, p) {
          SameReady(imp.mod, args, FilledArgs(m.tree, p, open, i));
          CalmArgs(m.tree, p, open, i, args);
          LeavesImport(m, p, open, i);
        }
      }
    }

    /** Evaluate the module; defaults are written into the very map that imp.params is. */
    method RunModule(m: Module, p: Dict, imp: Import, args: Dict, frames: nat, ghost i: nat, ghost open: set<nat>, ghost clean: bool)
      returns (r: Outcome<()>)
      requires WellFormed(m) && i < |m.imports| && m.imports[i] == imp
      requires clean ==> Consistent(m, p) && open == Open(m) && i in open && Ready(imp.mod, args)
      modifies Owned(imp)
      ensures imp.isEvaluated == old(imp.isEvaluated) && Open(m) == old(Open(m))
      ensures !old(imp.mod.isEvaluated) ==> imp.params == FillDefaults(imp.mod.params, args)
      ensures clean ==> Others(m, p, open, i)
      ensures clean && r.Ok? ==> Finished(imp.mod, args)
      ensures clean && r.Fail? ==> !EvalModule(imp.mod.tree, args).Ok?
      ensures clean && r.Fail? && Calm(imp.mod.tree, args) ==> Ready(imp.mod, args)
      ensures clean && Safe(imp.mod.tree, args, {}, frames, EvalModule(imp.mod.tree, args), true) ==> !r.Crash?
      decreases frames, 9, 1
    {
      hide Settled, Finished, Ready, Evaluated, Begun, Safe, Calm, EntriesRelapse, EntriesDoomed, FillDefaults, EvalModule;
      imp.params := args;
      var filled;
      r, filled := EvaluateModule(imp.mod, imp.params, frames, clean);
      imp.params := filled;
      if clean {
        forall j | 0 <= j < |m.imports| && j != i
          ensures Settled(m, p, open, j)
        {
          assert Owned(m.imports[j]) !! Owned(imp);
          assert old(Settled(m, p, Open(m), j));
        }
      }
    }

    method MarkImport(m: Module, p: Dict, imp: Import, ghost args: Dict, ghost i: nat, ghost open: set<nat>, ghost clean: bool)
      requires WellFormed(m) && i < |m.imports| && m.imports[i] == imp
      requires clean ==> Open(m) == open && i in open && Others(m, p, open, i)
      requires clean ==> FilledFor(m.tree, p, open, i, args) && Finished(imp.mod, args)
      requires clean ==> imp.params == FillDefaults(imp.mod.params, args)
      modifies imp`isEvaluated
      ensures clean ==> Consistent(m, p) && Open(m) == open - {i}
    {
      hide Settled, Finished, Ready, Begun;
      imp.isEvaluated := true;
      if clean {
        forall j | 0 <= j < |m.imports| && j != i
          ensures Settled(m, p, open, j)
        {
          assert old(Settled(m, p, open, j));
        }
        SameFinished(imp.mod, args, FilledArgs(m.tree, p, open, i));
        ClosesImport(m, p, open, i);
      }
    }

    method EvaluateModule(m: Module, args: Dict, frames: nat, ghost clean: bool) returns (r: Outcome<()>, params: Dict)
      requires WellFormed(m)
      requires clean ==> Ready(m, args)
      modifies m.repr
      ensures clean && r.Ok? ==> Finished(m, args)
      ensures !old(m.isEvaluated) ==> params == FillDefaults(m.params, args)
      ensures !old(m.isEvaluated) ==> forall k :: k in args ==> k in params && params[k] == args[k]
      ensures !old(m.isEvaluated) ==> forall k :: k in m.params && k !in args && m.params[k].default != Null ==> k in params && params[k] == m.params[k].default
      ensures !old(m.isEvaluated) ==> forall k :: k in params ==> k in args || (k in m.params && m.params[k].default != Null)
      ensures clean && r.Fail? && Calm(m.tree, args) ==> Ready(m, args)
      ensures clean && r.Fail? ==> !EvalModule(m.tree, args).Ok?
      ensures clean && Safe(m.tree, args, {}, frames, EvalModule(m.tree, args), true) ==> !r.Crash?
      ensures old(m.isEvaluated) ==> r == Ok(()) && params == args && unchanged(m.repr)
      ensures clean && !old(m.isEvaluated) && EntriesRelapse(m.tree, FillDefaults(m.params, args), m.tree.raw) ==> r.Crash?
      ensures !old(m.isEvaluated) && old(EntriesDoomed(m, FillDefaults(m.params, args), m.raw, clean)) ==> r.Crash?
      decreases frames, 9, 0
    {
      if m.isEvaluated {
        return Ok(()), args;
      }
      params := FillMissing(m.params, args);
      RoomEmpty(m.tree);
      if Calm(m.tree, args) {
        CalmDefaults(m.tree, args);
      }
      r := EvaluateExport(m, params, frames, clean);
      if r.Ok? {
        MarkEvaluated(m, params, clean);
      }
    }

    method MarkEvaluated(m: Module, ghost p: Dict, ghost clean: bool)
      requires WellFormed(m)
      requires clean ==> Consistent(m, p)
      modifies m`isEvaluated
      ensures m.isEvaluated
      ensures clean ==> Consistent(m, p) && Open(m) == old(Open(m))
    {
      m.isEvaluated := true;
      if clean {
        assert Open(m) == old(Open(m));
        forall i | 0 <= i < |m.imports|
          ensures Settled(m, p, Open(m), i)
        {
          assert old(Settled(m, p, Open(m), i));
        }
      }
    }

    /** The loop that fills in default values, in any order of the definitions. */
    method FillMissing(defs: map<string, ParamDef>, args: Dict) returns (params: Dict)
      ensures params == FillDefaults(defs, args)
      ensures forall k :: k in args ==> k in params && params[k] == args[k]
      ensures forall k :: k in defs && k !in args && defs[k].default != Null ==> k in params && params[k] == defs[k].default
      ensures forall k :: k in params ==> k in args || (k in defs && defs[k].default != Null)
    {
      params := args;
      var todo := defs.Keys;
      while todo != {}
        invariant todo <= defs.Keys
        invariant forall k :: k in params <==> k in args || (k in defs && k !in todo && defs[k].default != Null)
        invariant forall k :: k in params ==> params[k] == if k in args then args[k] else defs[k].default
      {
        var name :| name in todo;
        if defs[name].default != Null && name !in params {
          params := params[name := defs[name].default];
        }
        todo := todo - {name};
      }
    }

    method EvaluateExport(m: Module, p: Dict, frames: nat, ghost clean: bool) returns (r: Outcome<()>)
      requires WellFormed(m)
      requires clean ==> m.raw == m.tree.raw && Consistent(m, p)
      requires clean ==> Open(m) == Indices(m.tree) || !ReplaceEntries(m.tree.raw, ResolverOf(m.tree, p, {})).Ok?
      modifies m.repr
      ensures m.isEvaluated == old(m.isEvaluated)
      ensures r.Fail? ==> m.raw == old(m.raw)
      ensures clean && r.Fail? && Calm(m.tree, p) ==> Consistent(m, p)
      ensures clean && r.Ok? ==>
        && Consistent(m, p)
        && ReplaceEntries(m.tree.raw, ResolverOf(m.tree, p, {})) == Ok(m.raw)
        && m.typed == rawToTyped(m.raw)
        && forall i :: 0 <= i < |m.imports| ==>
          (m.imports[i].isEvaluated <==> Reachable(m.tree, p.Keys, Refs(m.tree, p.Keys, EntriesIdents(m.tree.raw)), i))
      ensures clean && r.Fail? ==> !ReplaceEntries(m.tree.raw, ResolverOf(m.tree, p, {})).Ok?
      ensures clean && Safe(m.tree, p, {}, frames, ReplaceEntries(m.tree.raw, ResolverOf(m.tree, p, {})), true) ==> !r.Crash?
      ensures clean && EntriesRelapse(m.tree, p, old(m.raw)) ==> r.Crash?
      ensures old(EntriesDoomed(m, p, m.raw, clean)) ==> r.Crash?
      decreases frames, 8
    {
      hide Consistent, EntriesDoomed, EntriesRelapse, Calm;
      ghost var before := Open(m);
      RelapsingIsDoomed(m, p, m.raw);
      var filled := ReplaceMap(m, p, m.raw, frames, {}, clean);
      if !filled.Ok? {
        return filled.PropagateFailure();
      }
      StoreExport(m, filled.value, p, clean);
      if clean {
        ResolverMonotone(m.tree, p, {}, Open(m));
        ReplaceEntriesMonotone(m.tree.raw, ResolverOf(m.tree, p, Open(m)), ResolverOf(m.tree, p, {}));
        NeededExactly(m.tree, p, before, Open(m));
      }
      return Ok(());
    }

    method StoreExport(m: Module, raw: Dict, ghost p: Dict, ghost clean: bool)
      requires WellFormed(m)
      requires clean ==> Consistent(m, p)
      modifies m`raw, m`typed
      ensures m.raw == raw && m.typed == rawToTyped(raw)
      ensures clean ==> Consistent(m, p) && Open(m) == old(Open(m))
    {
      m.raw := raw;
      m.typed := rawToTyped(m.raw);
      if clean {
        assert Open(m) == old(Open(m));
        forall i | 0 <= i < |m.imports|
          ensures Settled(m, p, Open(m), i)
        {
          assert old(Settled(m, p, Open(m), i));
        }
      }
    }

    // ----- imports/template_resolver.go -----

    method Resolve(m: Module, p: Dict, ident: string, frames: nat, ghost stack: set<nat>, ghost clean: bool) returns (r: Outcome<Value>)
      requires WellFormed(m)
      requires clean ==> Consistent(m, p)
      modifies m.repr - {m}
      ensures clean && r.Ok? ==> Consistent(m, p) && Reached(m.tree, p.Keys, {ident}, old(Open(m)), Open(m))
      ensures clean && r.Ok? ==> Lookup(m.tree, p, Open(m), ident) == r
      ensures clean && r.Fail? ==> !Lookup(m.tree, p, {}, ident).Ok?
      ensures clean && r.Fail? && Calm(m.tree, p) ==> Consistent(m, p)
      ensures clean && Safe(m.tree, p, stack, frames, Lookup(m.tree, p, stack, ident), true) ==> !r.Crash?
      ensures clean && r.Fail? && Ensnares(m.tree, p, ident) ==> IdentTrapped(m, p, ident)
      ensures old(IdentTrapped(m, p, ident)) ==> r.Crash?
      ensures Nameless(m.tree, p.Keys, ident) ==> r == Fail
      decreases frames, 3, 1
    {
      var segs := Segments(ident);
      if segs[0] in p {
        return AtPath(p[segs[0]], segs[1..]);
      }
      for i := 0 to |m.imports|
        invariant forall j :: 0 <= j < i ==> m.imports[j].name != segs[0]
        invariant unchanged(m.repr)
      {
        var imp := m.imports[i];
        if imp.name == segs[0] {
          assert FindImport(m.tree.imports, segs[0]) == Some(i);
          r := ResolveImport(m, p, ident, imp, segs, frames, i, stack, clean);
          return;
        }
      }
      return Fail;
    }

    /** The case of Resolve where an import of the right name is found. */
    method ResolveImport(m: Module, p: Dict, ident: string, imp: Import, segs: seq<string>, frames: nat,
                         ghost i: nat, ghost stack: set<nat>, ghost clean: bool) returns (r: Outcome<Value>)
      requires WellFormed(m) && i < |m.imports| && m.imports[i] == imp
      requires segs == Segments(ident) && segs[0] !in p && FindImport(m.tree.imports, segs[0]) == Some(i)
      requires clean ==> Consistent(m, p)
      modifies m.repr - {m}
      ensures clean && r.Ok? ==> Consistent(m, p) && Reached(m.tree, p.Keys, {ident}, old(Open(m)), Open(m))
      ensures clean && r.Ok? ==> Lookup(m.tree, p, Open(m), ident) == r
      ensures clean && r.Fail? ==> !Lookup(m.tree, p, {}, ident).Ok?
      ensures clean && r.Fail? && Calm(m.tree, p) ==> Consistent(m, p)
      ensures clean && Safe(m.tree, p, stack, frames, Lookup(m.tree, p, stack, ident), true) ==> !r.Crash?
      ensures clean && r.Fail? && Ensnares(m.tree, p, ident) ==> IdentTrapped(m, p, ident)
      ensures old(IdentTrapped(m, p, ident)) ==> r.Crash?
      decreases frames, 3, 0
    {
      hide Trapped, Consistent, Calm, EvalImport, LeftCircular, Reached, ReachedThrough;
      ghost var before := Open(m);
      CircularFails(m.tree, p, {}, i);
      var e := EvaluateImport(m, p, imp, frames, i, stack, clean);
      if !e.Ok? {
        return e.PropagateFailure();
      }
      if clean {
        EvaluatedDenotes(m, p, i);
        EvalImportMonotone(m.tree, p, {}, stack, i);
        ReachedFromImport(m.tree, p.Keys, ident, i, before, Open(m));
      }
      var top := OnlyEntry(imp.mod.raw);
      if !top.Ok? {
        return Fail;
      }
      return AtPath(top.value, segs[1..]);
    }

    // ----- template/template.go -----

    method ReplaceAny(m: Module, p: Dict, v: Value, frames: nat, ghost stack: set<nat>, ghost clean: bool) returns (r: Outcome<Value>)
      requires WellFormed(m)
      requires clean ==> Consistent(m, p)
      modifies m.repr - {m}
      ensures clean && r.Ok? ==> Consistent(m, p) && Reached(m.tree, p.Keys, Idents(v), old(Open(m)), Open(m))
      ensures clean && r.Ok? ==> Replace(v, ResolverOf(m.tree, p, Open(m))) == r
      ensures clean && r.Fail? ==> !Replace(v, ResolverOf(m.tree, p, {})).Ok?
      ensures clean && r.Fail? && Calm(m.tree, p) ==> Consistent(m, p)
      ensures clean && Safe(m.tree, p, stack, frames, Replace(v, ResolverOf(m.tree, p, stack)), OneHole(v)) ==> !r.Crash?
      ensures old(Doomed(m, p, v, clean)) ==> r.Crash?
      ensures Unnamed(m.tree, p.Keys, v) ==> r == Fail
      decreases frames, 6, v, 2
    {
      hide Consistent, TextDoomed, Calm;
      match v
      case Str(s) =>
        r := ReplaceText(m, p, s, frames, stack, clean);
      case List(items) =>
        var ys := ReplaceSlice(m, p, items, frames, stack, clean);
        r := if ys.Ok? then Ok(List(ys.value)) else ys.PropagateFailure();
      case Map(entries) =>
        var ys := ReplaceMap(m, p, entries, frames, stack, clean);
        r := if ys.Ok? then Ok(Map(ys.value)) else ys.PropagateFailure();
      case _ =>
        r := Ok(v);
    }

    method ReplaceMap(m: Module, p: Dict, entries: Dict, frames: nat, ghost stack: set<nat>, ghost clean: bool) returns (r: Outcome<Dict>)
      requires WellFormed(m)
      requires clean ==> Consistent(m, p)
      modifies m.repr - {m}
      ensures clean && r.Ok? ==> Consistent(m, p) && Reached(m.tree, p.Keys, EntriesIdents(entries), old(Open(m)), Open(m))
      ensures clean && r.Ok? ==> ReplaceEntries(entries, ResolverOf(m.tree, p, Open(m))) == r
      ensures clean && r.Fail? ==> !ReplaceEntries(entries, ResolverOf(m.tree, p, {})).Ok?
      ensures clean && r.Fail? && Calm(m.tree, p) ==> Consistent(m, p)
      ensures clean && Safe(m.tree, p, stack, frames, ReplaceEntries(entries, ResolverOf(m.tree, p, stack)), OneHoleEntries(entries)) ==> !r.Crash?
      ensures old(EntriesDoomed(m, p, entries, clean)) ==> r.Crash?
      decreases frames, 6, Map(entries), 1
    {
      hide Consistent, Doomed, Calm, Reached;
      var order := AnyOrder(entries.Keys);
      assert entries != map[] ==> order[0] in entries;
      r := ReplaceInOrder(m, p, entries, order, frames, stack, clean);
    }

    /** ReplaceMap, when Go's iteration goes through the keys in this order: the first entry decides alone
        if it names nothing, or if it is doomed. */
    method ReplaceInOrder(m: Module, p: Dict, entries: Dict, order: seq<string>, frames: nat, ghost stack: set<nat>, ghost clean: bool)
      returns (r: Outcome<Dict>)
      requires WellFormed(m) && Enumerates(order, entries.Keys)
      requires clean ==> Consistent(m, p)
      modifies m.repr - {m}
      ensures clean && r.Ok? ==> Consistent(m, p) && Reached(m.tree, p.Keys, EntriesIdents(entries), old(Open(m)), Open(m))
      ensures clean && r.Ok? ==> ReplaceEntries(entries, ResolverOf(m.tree, p, Open(m))) == r
      ensures clean && r.Fail? ==> !ReplaceEntries(entries, ResolverOf(m.tree, p, {})).Ok?
      ensures clean && r.Fail? && Calm(m.tree, p) ==> Consistent(m, p)
      ensures clean && Safe(m.tree, p, stack, frames, ReplaceEntries(entries, ResolverOf(m.tree, p, stack)), OneHoleEntries(entries)) ==> !r.Crash?
      ensures order != [] && Unnamed(m.tree, p.Keys, entries[order[0]]) ==> r == Fail
      ensures order != [] && old(Doomed(m, p, entries[order[0]], clean)) ==> r.Crash?
      decreases frames, 6, Map(entries), 0
    {
      hide Consistent, Doomed, Calm, Unnamed, Enumerates, Front, Safe;
      ghost var before := Open(m);
      LastKey(order, entries.Keys);
      ghost var doomed := order != [] && Doomed(m, p, entries[order[0]], clean);
      var filled: Dict := map[];
      for n := 0 to |order|
        invariant filled.Keys == Front(order, n) <= entries.Keys
        invariant doomed ==> n == 0 && Doomed(m, p, entries[order[0]], clean)
        invariant order != [] && Unnamed(m.tree, p.Keys, entries[order[0]]) ==> n == 0
        invariant clean ==> Consistent(m, p) && Reached(m.tree, p.Keys, EntriesIdents(entries), before, Open(m))
        invariant clean ==> forall k :: k in filled ==> Replace(entries[k], ResolverOf(m.tree, p, Open(m))) == Ok(filled[k])
      {
        ghost var between := Open(m);
        var key := order[n];
        NextKey(order, entries.Keys, n);
        EntrySafe(m.tree, p, stack, frames, entries, key);
        assert forall id :: id in Idents(entries[key]) ==> id in EntriesIdents(entries);
        var y := ReplaceAny(m, p, entries[key], frames, stack, clean);
        if !y.Ok? {
          return y.PropagateFailure();
        }
        if clean {
          ReachedJoin(m.tree, p.Keys, EntriesIdents(entries), Idents(entries[key]), EntriesIdents(entries), before, between, Open(m));
          StillFilled(m.tree, p, between, Open(m), entries, filled);
        }
        filled := filled[key := y.value];
      }
      r := Ok(filled);
      LastKey(order, entries.Keys);
      if clean {
        AllFilled(entries, filled, ResolverOf(m.tree, p, Open(m)));
      }
    }

    /** Go picks the order. */
    method AnyOrder(keys: set<string>) returns (order: seq<string>)
      ensures Enumerates(order, keys)
    {
      order := [];
      var todo := keys;
      while todo != {}
        invariant todo <= keys && Enumerates(order, keys - todo)
      {
        var key :| key in todo;
        order, todo := order + [key], todo - {key};
      }
    }

    method ReplaceSlice(m: Module, p: Dict, items: seq<Value>, frames: nat, ghost stack: set<nat>, ghost clean: bool) returns (r: Outcome<seq<Value>>)
      requires WellFormed(m)
      requires clean ==> Consistent(m, p)
      modifies m.repr - {m}
      ensures clean && r.Ok? ==> Consistent(m, p) && Reached(m.tree, p.Keys, ItemsIdents(items), old(Open(m)), Open(m))
      ensures clean && r.Ok? ==> ReplaceItems(items, ResolverOf(m.tree, p, Open(m))) == r
      ensures clean && r.Fail? ==> !ReplaceItems(items, ResolverOf(m.tree, p, {})).Ok?
      ensures clean && r.Fail? && Calm(m.tree, p) ==> Consistent(m, p)
      ensures clean && Safe(m.tree, p, stack, frames, ReplaceItems(items, ResolverOf(m.tree, p, stack)), OneHoleItems(items)) ==> !r.Crash?
      decreases frames, 6, items, 0
    {
      ghost var before := Open(m);
      var out: seq<Value> := [];
      for i := 0 to |items|
        invariant clean ==> Consistent(m, p) && Reached(m.tree, p.Keys, ItemsIdents(items), before, Open(m))
        invariant clean ==> ReplaceItems(items[..i], ResolverOf(m.tree, p, Open(m))) == Ok(out)
      {
        ghost var between := Open(m);
        if clean {
          ItemAmongItems(items, i);
          ItemSafe(m.tree, p, between, stack, frames, items, i);
        }
        var part := ReplaceSliceItem(m, p, items[i], frames, stack, clean);
        if !part.Ok? {
          if clean && part.Fail? {
            ItemFails(m.tree, p, between, items, i);
          }
          return part.PropagateFailure();
        }
        if clean {
          ReachedJoin(m.tree, p.Keys, ItemsIdents(items), ItemIdents(items[i]), ItemsIdents(items), before, between, Open(m));
          ItemSucceeds(m.tree, p, between, Open(m), items, i);
        }
        out := out + part.value;
      }
      assert items[..|items|] == items;
      r := Ok(out);
    }

    /** One round of ReplaceSlice's loop: splice a spread, or replace a single item. */
    method ReplaceSliceItem(m: Module, p: Dict, v: Value, frames: nat, ghost stack: set<nat>, ghost clean: bool) returns (r: Outcome<seq<Value>>)
      requires WellFormed(m)
      requires clean ==> Consistent(m, p)
      modifies m.repr - {m}
      ensures clean && r.Ok? ==> Consistent(m, p) && Reached(m.tree, p.Keys, ItemIdents(v), old(Open(m)), Open(m))
      ensures clean && r.Ok? ==> ReplaceItem(v, ResolverOf(m.tree, p, Open(m))) == r
      ensures clean && r.Fail? ==> !ReplaceItem(v, ResolverOf(m.tree, p, {})).Ok?
      ensures clean && r.Fail? && Calm(m.tree, p) ==> Consistent(m, p)
      ensures clean && Safe(m.tree, p, stack, frames, ReplaceItem(v, ResolverOf(m.tree, p, stack)), OneHole(v)) ==> !r.Crash?
      decreases frames, 6, v, 4
    {
      hide Consistent, Reached, Calm;
      var spread := GetSpread(m, p, v, frames, stack, clean);
      if !spread.Ok? {
        return spread.PropagateFailure();
      }
      if spread.value.Some? {
        return Ok(spread.value.value);
      }
      var w := ReplaceAny(m, p, v, frames, stack, clean);
      r := if w.Ok? then Ok([w.value]) else w.PropagateFailure();
    }

    /** None means the template is no spread. */
    method GetSpread(m: Module, p: Dict, v: Value, frames: nat, ghost stack: set<nat>, ghost clean: bool) returns (r: Outcome<Option<seq<Value>>>)
      requires WellFormed(m)
      requires clean ==> Consistent(m, p)
      modifies m.repr - {m}
      ensures r == Ok(None) <==> !(v.Str? && Holes.IsSpread(v.s))
      ensures r == Ok(None) ==> unchanged(m.repr - {m})
      ensures clean && r.Ok? && r.value.Some? ==>
        && Consistent(m, p) && Reached(m.tree, p.Keys, ItemIdents(v), old(Open(m)), Open(m))
        && ReplaceItem(v, ResolverOf(m.tree, p, Open(m))) == Ok(r.value.value)
      ensures clean && r.Fail? ==> !ReplaceItem(v, ResolverOf(m.tree, p, {})).Ok?
      ensures clean && r.Fail? && Calm(m.tree, p) ==> Consistent(m, p)
      ensures clean && Safe(m.tree, p, stack, frames, ReplaceItem(v, ResolverOf(m.tree, p, stack)), true) ==> !r.Crash?
      decreases frames, 5
    {
      hide IdentTrapped, Consistent, Calm;
      if v.Str? && Holes.IsSpread(v.s) {
        var w := Resolve(m, p, Holes.SpreadIdent(v.s), frames, stack, clean);
        if !w.Ok? {
          return w.PropagateFailure();
        }
        if clean {
          LookupMonotone(m.tree, p, {}, Open(m), Holes.SpreadIdent(v.s));
        }
        return if w.value.List? then Ok(Some(w.value.items)) else Fail;
      }
      return Ok(None);
    }

    method ReplaceText(m: Module, p: Dict, s: string, frames: nat, ghost stack: set<nat>, ghost clean: bool) returns (r: Outcome<Value>)
      requires WellFormed(m)
      requires clean ==> Consistent(m, p)
      modifies m.repr - {m}
      ensures clean && r.Ok? ==> Consistent(m, p) && Reached(m.tree, p.Keys, StringIdents(s), old(Open(m)), Open(m))
      ensures clean && r.Ok? ==> ReplaceString(s, ResolverOf(m.tree, p, Open(m))) == r
      ensures clean && r.Fail? ==> !ReplaceString(s, ResolverOf(m.tree, p, {})).Ok?
      ensures clean && r.Fail? && Calm(m.tree, p) ==> Consistent(m, p)
      ensures clean && Safe(m.tree, p, stack, frames, ReplaceString(s, ResolverOf(m.tree, p, stack)), OneHoleText(Holes.Parse(s))) ==> !r.Crash?
      ensures old(TextDoomed(m, p, Holes.Parse(s), clean)) ==> r.Crash?
      ensures Holes.IsHole(s) && Nameless(m.tree, p.Keys, Holes.HoleIdent(s)) ==> r == Fail
      decreases frames, 5
    {
      var expanded := ExpandString(m, p, s, frames, stack, clean);
      if !expanded.Ok? {
        return expanded.PropagateFailure();
      }
      if expanded.value.Some? {
        return Ok(expanded.value.value);
      }
      var filled := FillString(m, p, Holes.Parse(s), frames, stack, clean);
      r := if filled.Ok? then Ok(Str(filled.value)) else filled.PropagateFailure();
    }

    /** None means the template is not one single hole. */
    method ExpandString(m: Module, p: Dict, s: string, frames: nat, ghost stack: set<nat>, ghost clean: bool) returns (r: Outcome<Option<Value>>)
      requires WellFormed(m)
      requires clean ==> Consistent(m, p)
      modifies m.repr - {m}
      ensures r == Ok(None) <==> !Holes.IsHole(s)
      ensures r == Ok(None) ==> unchanged(m.repr - {m})
      ensures clean && r.Ok? && r.value.Some? ==>
        && Consistent(m, p) && Reached(m.tree, p.Keys, StringIdents(s), old(Open(m)), Open(m))
        && ReplaceString(s, ResolverOf(m.tree, p, Open(m))) == Ok(r.value.value)
      ensures clean && r.Fail? ==> !ReplaceString(s, ResolverOf(m.tree, p, {})).Ok?
      ensures clean && r.Fail? && Calm(m.tree, p) ==> Consistent(m, p)
      ensures clean && Safe(m.tree, p, stack, frames, ReplaceString(s, ResolverOf(m.tree, p, stack)), true) ==> !r.Crash?
      ensures old(TextDoomed(m, p, Holes.Parse(s), clean)) ==> r.Crash? || r == Ok(None)
      ensures Holes.IsHole(s) && Nameless(m.tree, p.Keys, Holes.HoleIdent(s)) ==> r == Fail
      decreases frames, 4
    {
      if !Holes.IsHole(s) {
        return Ok(None);
      }
      HoleParses(s);
      var v := Resolve(m, p, Holes.HoleIdent(s), frames, stack, clean);
      r := if v.Ok? then Ok(Some(v.value)) else v.PropagateFailure();
    }

    /** ReplaceAllFunc's walk over the holes. The remaining holes are resolved even when one has
        failed; by then the state may be half-evaluated, and those calls are `clean` only in a calm run. */
    method FillString(m: Module, p: Dict, t: Holes.Template, frames: nat, ghost stack: set<nat>, ghost clean: bool) returns (r: Outcome<string>)
      requires WellFormed(m)
      requires clean ==> Consistent(m, p)
      modifies m.repr - {m}
      ensures clean && r.Ok? ==> Consistent(m, p) && Reached(m.tree, p.Keys, FillIdents(t), old(Open(m)), Open(m))
      ensures clean && r.Ok? ==> Fill(t, ResolverOf(m.tree, p, Open(m))) == r
      ensures t.Tail? ==> r == Ok(t.text)
      ensures clean && r.Fail? ==> !Fill(t, ResolverOf(m.tree, p, {})).Ok?
      ensures clean && r.Fail? && Calm(m.tree, p) ==> Consistent(m, p)
      ensures clean && Safe(m.tree, p, stack, frames, Fill(t, ResolverOf(m.tree, p, stack)), OneHoleText(t)) ==> !r.Crash?
      ensures old(TextDoomed(m, p, t, clean)) ==> r.Crash?
      decreases frames, 4, t
    {
      if t.Tail? {
        return Ok(t.text);
      }
      ghost var before := Open(m);
      ghost var safe := clean && Safe(m.tree, p, stack, frames, Fill(t, ResolverOf(m.tree, p, stack)), OneHoleText(t));
      if safe {
        HoleSafe(m.tree, p, stack, frames, t);
      }
      ghost var snared := clean && Relapses(m.tree, p, t);
      var v := Resolve(m, p, t.ident, frames, stack, clean);
      if v.Crash? {
        return Crash;
      }
      var shown := if v.Ok? then Render(v.value) else Fail;
      ghost var between := Open(m);
      ghost var cleanRest := clean && (v.Ok? || Calm(m.tree, p));
      if clean && !shown.Ok? {
        HoleFailed(m.tree, p, between, t, v);
        if safe {
          NothingAfterFailure(m.tree, p, stack, frames, t);
        }
      }
      if snared {
        SnaredFails(m.tree, p, between, t.ident);
      }
      assert snared ==> IdentTrapped(m, p, t.rest.ident);
      var more := FillString(m, p, t.rest, frames, stack, cleanRest);
      if cleanRest && more.Fail? {
        RestFailed(t, ResolverOf(m.tree, p, {}));
      }
      if cleanRest && shown.Ok? && more.Ok? {
        ReachedJoin(m.tree, p.Keys, {t.ident}, FillIdents(t.rest), FillIdents(t), before, between, Open(m));
        HoleFilled(m.tree, p, between, Open(m), t, v, more);
      }
      r := if more.Crash? then Crash
           else if shown.Ok? && more.Ok? then Ok(t.text + shown.value + more.value)
           else Fail;
    }

    /** The part of Consistent that is about the imports other than `i`. */
    ghost predicate Others(m: Module, p: Dict, open: set<nat>, i: nat)
      requires WellFormed(m)
      reads m.repr
    {
      forall j :: 0 <= j < |m.imports| && j != i ==> Settled(m, p, open, j)
    }

    lemma TrappedParams(m: Module, p: Dict, i: nat, clean: bool)
      requires WellFormed(m) && i < |m.imports|
      ensures Trapped(m, p, i) ==> EntriesDoomed(m, p, m.imports[i].params, clean)
    {
      if !Trapped(m, p, i) {
        return;
      }
      var loop :| i in loop && Loop(m, p, loop);
      forall k | k in m.imports[i].params
        ensures Doomed(m, p, m.imports[i].params[k], clean)
      {
        var text := Holes.Parse(m.imports[i].params[k].s);
        assert TextLeads(m.tree, p.Keys, loop, text);
        assert Trapped(m, p, Target(m.tree, p.Keys, text.ident).value);
      }
    }

    lemma RelapsingIsDoomed(m: Module, p: Dict, entries: Dict)
      requires WellFormed(m)
      ensures EntriesRelapse(m.tree, p, entries) ==> EntriesDoomed(m, p, entries, true)
    {
    }

    lemma LeftTrapped(m: Module, p: Dict, open: set<nat>, i: nat, args: Dict)
      requires WellFormed(m) && i < |m.imports| && i in open && FilledFor(m.tree, p, open, i, args)
      requires !m.imports[i].isEvaluated && m.imports[i].params == FillDefaults(m.imports[i].mod.params, args)
      ensures LeftCircular(m.tree, p, i) ==> Trapped(m, p, i)
    {
      FilledShrinks(m.tree, p, open, {i}, i, args);
      assert m.imports[i].mod.params == m.tree.imports[i].mod.params;
      if LeftCircular(m.tree, p, i) {
        assert Loop(m, p, {i});
      }
    }

    lemma SettledIs(m: Module, p: Dict, open: set<nat>, i: nat)
      requires WellFormed(m) && i < |m.imports|
      ensures Settled(m, p, open, i) <==>
        if m.imports[i].isEvaluated then Evaluated(m, p, open, i) else Waiting(m.imports[i]) || Begun(m, p, open, i)
    {
    }

    /** What is settled stays so when fewer imports are open. */
    lemma SettledShrinks(m: Module, p: Dict, open: set<nat>, fewer: set<nat>, j: nat)
      requires WellFormed(m) && j < |m.imports| && fewer <= open && Settled(m, p, open, j)
      ensures Settled(m, p, fewer, j)
    {
      SettledIs(m, p, open, j);
      SettledIs(m, p, fewer, j);
      if m.imports[j].isEvaluated || !Waiting(m.imports[j]) {
        ResolverMonotone(m.tree, p, fewer, open);
        ReplaceEntriesMonotone(m.tree.imports[j].params, ResolverOf(m.tree, p, open), ResolverOf(m.tree, p, fewer));
      }
    }

    lemma ClosesImport(m: Module, p: Dict, open: set<nat>, i: nat)
      requires WellFormed(m) && i < |m.imports| && i in open
      requires Others(m, p, open, i) && m.imports[i].isEvaluated && Evaluated(m, p, open, i)
      requires Open(m) == open - {i}
      ensures Consistent(m, p)
    {
      SettledIs(m, p, open, i);
      hide Evaluated, Begun, Waiting, Settled;
      forall j | 0 <= j < |m.imports|
        ensures Settled(m, p, Open(m), j)
      {
        assert Settled(m, p, open, j);
        SettledShrinks(m, p, open, Open(m), j);
      }
    }

    lemma LeavesImport(m: Module, p: Dict, open: set<nat>, i: nat)
      requires WellFormed(m) && i < |m.imports|
      requires Others(m, p, open, i) && Begun(m, p, open, i)
      requires Open(m) == open
      ensures Consistent(m, p)
    {
      assert !m.imports[i].isEvaluated;
      SettledIs(m, p, open, i);
      hide Evaluated, Waiting, Begun, Settled;
    }

    /** A module just parsed is ready for any arguments. */
    lemma PristineReady(m: Module, args: Dict)
      requires WellFormed(m) && Pristine(m)
      ensures Ready(m, args)
    {
      assert Open(m) == Indices(m.tree);
    }

    lemma SameReady(m: Module, args: Dict, other: Dict)
      requires WellFormed(m) && FillDefaults(m.params, args) == FillDefaults(m.params, other) && m.params == m.tree.params
      ensures Ready(m, args) <==> Ready(m, other)
      ensures EvalModule(m.tree, args) == EvalModule(m.tree, other)
    {
    }

    lemma SameFinished(m: Module, args: Dict, other: Dict)
      requires WellFormed(m) && FillDefaults(m.params, args) == FillDefaults(m.params, other)
      ensures Finished(m, args) <==> Finished(m, other)
    {
    }

    /** The params that an unevaluated import holds: as parsed, or substituted and without holes. */
    lemma HoldsParams(m: Module, p: Dict, i: nat)
      requires WellFormed(m) && Consistent(m, p) && i < |m.imports| && !m.imports[i].isEvaluated
      ensures Held(m.tree, p, Open(m), i, m.imports[i].params)
    {
      assert Settled(m, p, Open(m), i);
      SettledIs(m, p, Open(m), i);
      if !Waiting(m.imports[i]) {
        assert Begun(m, p, Open(m), i);
        DefaultsTwice(m.imports[i].mod.params, FilledArgs(m.tree, p, Open(m), i));
      }
    }

    /** What is known of an import once the params it held are substituted. */
    lemma AfterFilling(m: Module, p: Dict, before: set<nat>, i: nat, held: Dict, args: Dict, stack: set<nat>, frames: nat)
      requires WellFormed(m) && Consistent(m, p) && i < |m.imports| && i in before && frames > 0
      requires Held(m.tree, p, before, i, held) && ReplaceEntries(held, ResolverOf(m.tree, p, Open(m))) == Ok(args)
      requires Reached(m.tree, p.Keys, EntriesIdents(held), before, Open(m))
      ensures i in Open(m) && FilledFor(m.tree, p, Open(m), i, args) && Ready(m.imports[i].mod, args)
      ensures ReachedThrough(m.tree, p.Keys, i, before, Open(m) - {i})
      ensures EvalImport(m.tree, p, {}, i) == EvalModule(m.imports[i].mod.tree, args)
      ensures Safe(m.tree, p, stack, frames, EvalImport(m.tree, p, stack, i), true) ==>
        Safe(m.imports[i].mod.tree, args, {}, frames - 1, EvalModule(m.imports[i].mod.tree, args), true)
    {
      hide Held, FilledFor, Ready, Settled, Calm, Safe, Consistent, EvalImport, EvalModule;
      HeldFilled(m.tree, p, before, Open(m), i, held, args);
      ImportReady(m, p, i, args);
      FilledDecides(m.tree, p, Open(m), stack, i, args);
      if Safe(m.tree, p, stack, frames, EvalImport(m.tree, p, stack, i), true) {
        ModuleSafe(m.tree, p, Open(m), stack, frames, i, args);
      }
    }

    lemma ImportReady(m: Module, p: Dict, i: nat, args: Dict)
      requires WellFormed(m) && Consistent(m, p) && i < |m.imports| && i in Open(m)
      requires FilledFor(m.tree, p, Open(m), i, args)
      ensures Ready(m.imports[i].mod, args)
    {
      assert Settled(m, p, Open(m), i);
      SettledIs(m, p, Open(m), i);
      if Waiting(m.imports[i]) {
        PristineReady(m.imports[i].mod, args);
      } else {
        assert Begun(m, p, Open(m), i);
        SameReady(m.imports[i].mod, args, FilledArgs(m.tree, p, Open(m), i));
      }
    }

    lemma EvaluatedDenotes(m: Module, p: Dict, i: nat)
      requires WellFormed(m) && i < |m.imports| && Consistent(m, p) && m.imports[i].isEvaluated
      ensures EvalImport(m.tree, p, Open(m), i) == Ok(m.imports[i].mod.raw)
      ensures EvalImport(m.tree, p, {}, i) == Ok(m.imports[i].mod.raw)
    {
      assert Settled(m, p, Open(m), i) && i !in Open(m);
      SettledIs(m, p, Open(m), i);
      var args := ReplaceEntries(m.tree.imports[i].params, ResolverOf(m.tree, p, Open(m)));
      assert Finished(m.imports[i].mod, args.value);
      OwnStackIrrelevant(m.tree, p, Open(m), i);
      EvalImportMonotone(m.tree, p, {}, Open(m), i);
    }
  }

  /** What a run may have evaluated on the way from `before` to `after`. */
  ghost predicate Reached(t: ModuleTree, bound: set<string>, ids: set<string>, before: set<nat>, after: set<nat>) {
    && after <= before
    && forall i :: i in before && i !in after ==> Reachable(t, bound, Refs(t, bound, ids), i)
  }

  /** The same for a run that evaluates import `i`. */
  ghost predicate ReachedThrough(t: ModuleTree, bound: set<string>, i: nat, before: set<nat>, after: set<nat>)
    requires i < |t.imports|
  {
    && after <= before
    && forall k :: k in before && k !in after ==> k == i || Reachable(t, bound, ParamRefs(t, bound, i), k)
  }

  lemma ReachedFromImport(t: ModuleTree, bound: set<string>, ident: string, i: nat, before: set<nat>, after: set<nat>)
    requires i < |t.imports| && Segments(ident)[0] !in bound && FindImport(t.imports, Segments(ident)[0]) == Some(i)
    requires ReachedThrough(t, bound, i, before, after)
    ensures Reached(t, bound, {ident}, before, after)
  {
    var refs := Refs(t, bound, {ident});
    assert i in refs;
    forall k | k in before && k !in after
      ensures Reachable(t, bound, refs, k)
    {
      if k == i {
        RootReachable(t, bound, refs, i);
      } else {
        ReachableStep(t, bound, refs, i, k);
      }
    }
  }

  /** An import whose params can be filled is not evaluated on the way. */
  lemma StillOpen(t: ModuleTree, p: Dict, before: set<nat>, open: set<nat>, i: nat)
    requires i < |t.imports| && i in before
    requires ReplaceEntries(t.imports[i].params, ResolverOf(t, p, open)).Ok?
    requires Reached(t, p.Keys, EntriesIdents(t.imports[i].params), before, open)
    ensures i in open
  {
    OwnStackIrrelevant(t, p, open, i);
    if Reachable(t, p.Keys, ParamRefs(t, p.Keys, i), i) {
      ReachedOffStack(t, p, open + {i}, t.imports[i].params, i);
    }
  }

  /** Params that cannot be filled make the import fail. */
  lemma ParamsFail(t: ModuleTree, p: Dict, i: nat)
    requires i < |t.imports| && !ReplaceEntries(t.imports[i].params, ResolverOf(t, p, {})).Ok?
    ensures !EvalImport(t, p, {}, i).Ok?
  {
    ResolverMonotone(t, p, {}, {} + {i});
    ReplaceEntriesMonotone(t.imports[i].params, ResolverOf(t, p, {} + {i}), ResolverOf(t, p, {}));
  }

  /** An unevaluated import's params: as parsed, or already substituted, with defaults and no holes. */
  ghost predicate Held(t: ModuleTree, p: Dict, open: set<nat>, i: nat, held: Dict)
    requires i < |t.imports|
  {
    held == t.imports[i].params || (PlainDict(held) && FilledFor(t, p, open, i, held))
  }

  /** `args` are the import's filled params, but perhaps for defaults. */
  ghost predicate FilledFor(t: ModuleTree, p: Dict, open: set<nat>, i: nat, args: Dict)
    requires i < |t.imports|
  {
    var filled := ReplaceEntries(t.imports[i].params, ResolverOf(t, p, open));
    filled.Ok? && FillDefaults(t.imports[i].mod.params, args) == FillDefaults(t.imports[i].mod.params, filled.value)
  }

  ghost function FilledArgs(t: ModuleTree, p: Dict, open: set<nat>, i: nat): Dict
    requires i < |t.imports| && ReplaceEntries(t.imports[i].params, ResolverOf(t, p, open)).Ok?
  {
    ReplaceEntries(t.imports[i].params, ResolverOf(t, p, open)).value
  }

  lemma FilledShrinks(t: ModuleTree, p: Dict, open: set<nat>, fewer: set<nat>, i: nat, args: Dict)
    requires i < |t.imports| && fewer <= open && FilledFor(t, p, open, i, args)
    ensures FilledFor(t, p, fewer, i, args)
  {
    ResolverMonotone(t, p, fewer, open);
    ReplaceEntriesMonotone(t.imports[i].params, ResolverOf(t, p, open), ResolverOf(t, p, fewer));
  }

  /** Substituting what an import holds gives its filled params, and does not evaluate it on the way. */
  lemma HeldFilled(t: ModuleTree, p: Dict, before: set<nat>, open: set<nat>, i: nat, held: Dict, args: Dict)
    requires i < |t.imports| && i in before && Held(t, p, before, i, held)
    requires ReplaceEntries(held, ResolverOf(t, p, open)) == Ok(args)
    requires Reached(t, p.Keys, EntriesIdents(held), before, open)
    ensures i in open && FilledFor(t, p, open, i, args)
    ensures Reached(t, p.Keys, EntriesIdents(t.imports[i].params), before, open)
  {
    var params := t.imports[i].params;
    if held != params {
      PlainEntries(held, ResolverOf(t, p, open));
      FilledShrinks(t, p, before, open, i, held);
      WiderReach(t, p.Keys, {}, EntriesIdents(params), before, open);
    }
    StillOpen(t, p, before, open, i);
  }

  lemma WiderReach(t: ModuleTree, bound: set<string>, some: set<string>, ids: set<string>, before: set<nat>, after: set<nat>)
    requires some <= ids && Reached(t, bound, some, before, after)
    ensures Reached(t, bound, ids, before, after)
  {
    ReachedJoin(t, bound, some, some, ids, before, after, after);
  }

  lemma HeldFails(t: ModuleTree, p: Dict, open: set<nat>, i: nat, held: Dict)
    requires i < |t.imports| && Held(t, p, open, i, held)
    requires !ReplaceEntries(held, ResolverOf(t, p, {})).Ok?
    ensures !EvalImport(t, p, {}, i).Ok? && !LeftCircular(t, p, i)
  {
    if PlainDict(held) {
      PlainEntries(held, ResolverOf(t, p, {}));
    } else {
      ParamsFail(t, p, i);
      ResolverMonotone(t, p, {}, {i});
      ReplaceEntriesMonotone(held, ResolverOf(t, p, {i}), ResolverOf(t, p, {}));
    }
  }

  /** Evaluating an import safely is substituting what it holds safely with one frame less. */
  lemma HeldSafe(t: ModuleTree, p: Dict, open: set<nat>, stack: set<nat>, frames: nat, i: nat, held: Dict)
    requires i < |t.imports| && Held(t, p, open, i, held)
    requires Safe(t, p, stack, frames, EvalImport(t, p, stack, i), true)
    ensures frames > 0
    ensures Safe(t, p, stack + {i}, frames - 1, ReplaceEntries(held, ResolverOf(t, p, stack + {i})), OneHoleEntries(held))
  {
    RoomPush(t, stack, i);
    if PlainDict(held) {
      PlainEntries(held, ResolverOf(t, p, stack + {i}));
    }
  }

  lemma CalmArgs(t: ModuleTree, p: Dict, open: set<nat>, i: nat, args: Dict)
    requires Calm(t, p) && i < |t.imports| && i in open && FilledFor(t, p, open, i, args)
    ensures Calm(t.imports[i].mod, args) && PlainDict(FillDefaults(t.imports[i].mod.params, args))
  {
    var c :| CalmBy(c, t, p);
    ArgsPlain(c, t, p, open, i);
    DefaultsPlain(c, t.imports[i].mod, FilledArgs(t, p, open, i));
    var all := FillDefaults(t.imports[i].mod.params, args);
    assert forall k :: k in args ==> k in all && all[k] == args[k];
    assert CalmBy(c, t.imports[i].mod, args);
  }

  lemma ModuleSafe(t: ModuleTree, p: Dict, open: set<nat>, stack: set<nat>, frames: nat, i: nat, args: Dict)
    requires i < |t.imports| && i in open && FilledFor(t, p, open, i, args) && frames > 0
    requires Safe(t, p, stack, frames, EvalImport(t, p, stack, i), true)
    ensures Safe(t.imports[i].mod, args, {}, frames - 1, EvalModule(t.imports[i].mod, args), true)
  {
    RoomPush(t, stack, i);
    RoomEmpty(t.imports[i].mod);
    FilledDecides(t, p, open, stack, i, args);
    if Calm(t, p) {
      CalmArgs(t, p, open, i, args);
    }
  }

  /** What the module says about an import, whatever defaults its args hold already. */
  lemma FilledDecides(t: ModuleTree, p: Dict, open: set<nat>, stack: set<nat>, i: nat, args: Dict)
    requires i < |t.imports| && i in open && FilledFor(t, p, open, i, args)
    ensures EvalImport(t, p, {}, i) == EvalModule(t.imports[i].mod, args)
    ensures !EvalImport(t, p, stack, i).Crash? ==> EvalImport(t, p, stack, i) == EvalModule(t.imports[i].mod, args)
  {
    ModuleDecides(t, p, open, stack, i, FilledArgs(t, p, open, i));
    assert EvalModule(t.imports[i].mod, args) == EvalModule(t.imports[i].mod, FilledArgs(t, p, open, i));
  }

  /** What the module says about an import once its params are filled. */
  lemma ModuleDecides(t: ModuleTree, p: Dict, open: set<nat>, stack: set<nat>, i: nat, args: Dict)
    requires i < |t.imports| && i in open
    requires ReplaceEntries(t.imports[i].params, ResolverOf(t, p, open)) == Ok(args)
    ensures EvalImport(t, p, {}, i) == EvalModule(t.imports[i].mod, args)
    ensures !EvalImport(t, p, stack, i).Crash? ==> EvalImport(t, p, stack, i) == EvalModule(t.imports[i].mod, args)
  {
    var params := t.imports[i].params;
    ResolverMonotone(t, p, {} + {i}, open);
    ReplaceEntriesMonotone(params, ResolverOf(t, p, open), ResolverOf(t, p, {} + {i}));
    ResolverMonotone(t, p, {} + {i}, stack + {i});
    ReplaceEntriesMonotone(params, ResolverOf(t, p, stack + {i}), ResolverOf(t, p, {} + {i}));
  }

  lemma {:induction false} ItemAmongItems(items: seq<Value>, i: nat)
    requires i < |items|
    ensures ItemIdents(items[i]) <= ItemsIdents(items)
  {
    assert ItemsIdents(items) == ItemIdents(items[0]) + ItemsIdents(items[1..]);
    if i > 0 {
      ItemAmongItems(items[1..], i - 1);
    }
  }

  /** The items before `i` succeeded with `open` on the stack, hence also without any stack. */
  lemma PrefixSucceeds(t: ModuleTree, p: Dict, open: set<nat>, after: set<nat>, items: seq<Value>)
    requires ReplaceItems(items, ResolverOf(t, p, open)).Ok? && after <= open
    ensures ReplaceItems(items, ResolverOf(t, p, after)) == ReplaceItems(items, ResolverOf(t, p, open))
  {
    ResolverMonotone(t, p, after, open);
    ReplaceItemsMonotone(items, ResolverOf(t, p, open), ResolverOf(t, p, after));
  }

  lemma ItemFails(t: ModuleTree, p: Dict, open: set<nat>, items: seq<Value>, i: nat)
    requires i < |items| && ReplaceItems(items[..i], ResolverOf(t, p, open)).Ok?
    requires !ReplaceItem(items[i], ResolverOf(t, p, {})).Ok?
    ensures !ReplaceItems(items, ResolverOf(t, p, {})).Ok?
  {
    PrefixSucceeds(t, p, open, {}, items[..i]);
    ReplaceItemsSnoc(items, i, ResolverOf(t, p, {}));
    ReplaceItemsPrefix(items, i + 1, ResolverOf(t, p, {}));
  }

  lemma ItemSucceeds(t: ModuleTree, p: Dict, open: set<nat>, after: set<nat>, items: seq<Value>, i: nat)
    requires i < |items| && after <= open
    requires ReplaceItems(items[..i], ResolverOf(t, p, open)).Ok? && ReplaceItem(items[i], ResolverOf(t, p, after)).Ok?
    ensures ReplaceItems(items[..i + 1], ResolverOf(t, p, after)) ==
            Ok(ReplaceItems(items[..i], ResolverOf(t, p, open)).value + ReplaceItem(items[i], ResolverOf(t, p, after)).value)
  {
    PrefixSucceeds(t, p, open, after, items[..i]);
    ReplaceItemsSnoc(items, i, ResolverOf(t, p, after));
  }

  lemma StillFilled(t: ModuleTree, p: Dict, open: set<nat>, after: set<nat>, entries: Dict, filled: Dict)
    requires after <= open && filled.Keys <= entries.Keys
    requires forall k :: k in filled ==> Replace(entries[k], ResolverOf(t, p, open)) == Ok(filled[k])
    ensures forall k :: k in filled ==> Replace(entries[k], ResolverOf(t, p, after)) == Ok(filled[k])
  {
    ResolverMonotone(t, p, after, open);
    forall k | k in filled
      ensures Replace(entries[k], ResolverOf(t, p, after)) == Ok(filled[k])
    {
      ReplaceMonotone(entries[k], ResolverOf(t, p, open), ResolverOf(t, p, after));
    }
  }

  lemma EntrySafe(t: ModuleTree, p: Dict, stack: set<nat>, frames: nat, entries: Dict, key: string)
    requires key in entries
    ensures Safe(t, p, stack, frames, ReplaceEntries(entries, ResolverOf(t, p, stack)), OneHoleEntries(entries)) ==>
            Safe(t, p, stack, frames, Replace(entries[key], ResolverOf(t, p, stack)), OneHole(entries[key]))
  {
  }

  function Front(order: seq<string>, n: nat): set<string>
    requires n <= |order|
  {
    set k | k in order[..n]
  }

  lemma NextKey(order: seq<string>, keys: set<string>, n: nat)
    requires Enumerates(order, keys) && n < |order|
    ensures order[n] in keys && order[n] !in Front(order, n) && Front(order, n + 1) == Front(order, n) + {order[n]}
  {
    assert order[..n + 1] == order[..n] + [order[n]];
  }

  lemma LastKey(order: seq<string>, keys: set<string>)
    requires Enumerates(order, keys)
    ensures Front(order, 0) == {} && Front(order, |order|) == keys && (order != [] ==> order[0] in keys)
  {
    assert order[..|order|] == order;
  }

  lemma AllFilled(entries: Dict, filled: Dict, f: Resolver)
    requires filled.Keys == entries.Keys
    requires forall k :: k in filled ==> Replace(entries[k], f) == Ok(filled[k])
    ensures ReplaceEntries(entries, f) == Ok(filled)
  {
    assert ReplaceEntries(entries, f).value == filled;
  }

  /** A list that is safe to fill has a safe item after a prefix that succeeded. */
  lemma ItemSafe(t: ModuleTree, p: Dict, open: set<nat>, stack: set<nat>, frames: nat, items: seq<Value>, i: nat)
    requires i < |items| && ReplaceItems(items[..i], ResolverOf(t, p, open)).Ok?
    ensures Safe(t, p, stack, frames, ReplaceItems(items, ResolverOf(t, p, stack)), OneHoleItems(items)) ==>
            Safe(t, p, stack, frames, ReplaceItem(items[i], ResolverOf(t, p, stack)), OneHole(items[i]))
  {
    var f := ResolverOf(t, p, stack);
    PrefixSucceeds(t, p, open, {}, items[..i]);
    ResolverMonotone(t, p, {}, stack);
    ReplaceItemsMonotone(items[..i], f, ResolverOf(t, p, {}));
    ReplaceItemsPrefix(items, i, f);
    ReplaceItemsSnoc(items, i, f);
    ReplaceItemsPrefix(items, i + 1, f);
  }

  /** A string that is safe to fill has a safe first hole and a safe rest. */
  lemma HoleSafe(t: ModuleTree, p: Dict, stack: set<nat>, frames: nat, text: Holes.Template)
    requires text.Cut?
    requires Safe(t, p, stack, frames, Fill(text, ResolverOf(t, p, stack)), OneHoleText(text))
    ensures Safe(t, p, stack, frames, Lookup(t, p, stack, text.ident), true)
    ensures Safe(t, p, stack, frames, Fill(text.rest, ResolverOf(t, p, stack)), OneHoleText(text.rest))
  {
  }

  /** If the first hole cannot be filled then neither can the string. */
  lemma HoleFailed(t: ModuleTree, p: Dict, open: set<nat>, text: Holes.Template, v: Outcome<Value>)
    requires text.Cut? && !v.Crash?
    requires v.Fail? ==> !Lookup(t, p, {}, text.ident).Ok?
    requires v.Ok? ==> Lookup(t, p, open, text.ident) == v && !Render(v.value).Ok?
    ensures !Fill(text, ResolverOf(t, p, {})).Ok?
  {
    LookupMonotone(t, p, {}, open, text.ident);
  }

  lemma NothingAfterFailure(t: ModuleTree, p: Dict, stack: set<nat>, frames: nat, text: Holes.Template)
    requires text.Cut? && !Fill(text, ResolverOf(t, p, {})).Ok?
    requires Safe(t, p, stack, frames, Fill(text, ResolverOf(t, p, stack)), OneHoleText(text))
    ensures text.rest.Tail? || Calm(t, p)
  {
    ResolverMonotone(t, p, {}, stack);
    FillMonotone(text, ResolverOf(t, p, stack), ResolverOf(t, p, {}));
  }

  lemma RestFailed(text: Holes.Template, f: Resolver)
    requires text.Cut? && !Fill(text.rest, f).Ok?
    ensures !Fill(text, f).Ok?
  {
  }

  lemma HoleFilled(t: ModuleTree, p: Dict, open: set<nat>, after: set<nat>, text: Holes.Template, v: Outcome<Value>, more: Outcome<string>)
    requires text.Cut? && after <= open
    requires v.Ok? && Lookup(t, p, open, text.ident) == v && Render(v.value).Ok?
    requires more.Ok? && Fill(text.rest, ResolverOf(t, p, after)) == more
    ensures Fill(text, ResolverOf(t, p, after)) == Ok(text.text + Render(v.value).value + more.value)
  {
    LookupMonotone(t, p, after, open, text.ident);
  }

  /** When the export could be filled, the imports evaluated for it are the reachable ones. */
  lemma NeededExactly(t: ModuleTree, p: Dict, before: set<nat>, after: set<nat>)
    requires before == Indices(t)
    requires ReplaceEntries(t.raw, ResolverOf(t, p, after)).Ok?
    requires Reached(t, p.Keys, EntriesIdents(t.raw), before, after)
    ensures forall i :: i in Indices(t) ==>
      (i !in after <==> Reachable(t, p.Keys, Refs(t, p.Keys, EntriesIdents(t.raw)), i))
  {
    forall i | i in Indices(t) && Reachable(t, p.Keys, Refs(t, p.Keys, EntriesIdents(t.raw)), i)
      ensures i !in after
    {
      ReachedOffStack(t, p, after, t.raw, i);
    }
  }

  lemma ReachedJoin(t: ModuleTree, bound: set<string>, some: set<string>, more: set<string>, ids: set<string>,
                    before: set<nat>, between: set<nat>, after: set<nat>)
    requires Reached(t, bound, some, before, between) && Reached(t, bound, more, between, after)
    requires some <= ids && more <= ids
    ensures Reached(t, bound, ids, before, after)
  {
    forall i | i in before && i !in after
      ensures Reachable(t, bound, Refs(t, bound, ids), i)
    {
      if i in between {
        ReachableWiden(t, bound, Refs(t, bound, more), Refs(t, bound, ids), i);
      } else {
        ReachableWiden(t, bound, Refs(t, bound, some), Refs(t, bound, ids), i);
      }
    }
  }

  /** Enough room for a meaning that is no crash. If that meaning is no result, then also: no string goes
      on to a second hole after one has failed, or substituting again makes no difference. */
  ghost predicate Safe<T>(t: ModuleTree, p: Dict, stack: set<nat>, frames: nat, spec: Outcome<T>, oneHole: bool) {
    frames >= Room(t, stack) && !spec.Crash? && (spec.Ok? || (oneHole && OneHoleTree(t)) || Calm(t, p))
  }
}
