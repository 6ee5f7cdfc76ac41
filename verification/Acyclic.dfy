/** When evaluation cannot crash: a check on the module text alone. */
module Acyclic {
  import opened Outcomes
  import opened Values
  import opened Templates
  import opened ModuleTrees
  import Holes
  import Text
  import Numerals

  /** The names bound while a module is evaluated: its arguments and its defaulted params. */
  ghost function BoundNames(t: ModuleTree, args: set<string>): set<string> {
    args + set k | k in t.params && t.params[k].default != Null
  }

  /** `live` holds every import the export can need, and `rank` falls along references. */
  ghost predicate Ranked(t: ModuleTree, bound: set<string>, live: set<nat>, rank: seq<nat>) {
    && live <= Indices(t) && |rank| == |t.imports|
    && Refs(t, bound, EntriesIdents(t.raw)) <= live
    && forall i :: i in live ==>
      && ParamRefs(t, bound, i) <= live
      && forall j :: j in ParamRefs(t, bound, i) ==> rank[j] < rank[i]
  }

  /** Sibling imports do not need each other in a circle, here and in every module needed below.
      A name bound by a param does not count as a reference to the import of that name. */
  ghost predicate IsAcyclic(t: ModuleTree, args: set<string>)
    decreases t
  {
    exists live, rank :: Ranked(t, BoundNames(t, args), live, rank) && LiveAcyclic(t, live)
  }

  ghost predicate LiveAcyclic(t: ModuleTree, live: set<nat>)
    requires live <= Indices(t)
    decreases t, 0
  {
    forall i :: i in live ==> IsAcyclic(t.imports[i].mod, t.imports[i].params.Keys)
  }

  /** No identifier indexes a list from before its start. */
  ghost predicate Indexable(ident: string) {
    var segs := Segments(ident);
    forall k :: 1 <= k < |segs| ==> IndexOk(segs[k])
  }

  ghost predicate IndexableTree(t: ModuleTree) {
    && (forall id :: id in EntriesIdents(t.raw) ==> Indexable(id))
    && forall i :: 0 <= i < |t.imports| ==>
      && (forall id :: id in EntriesIdents(t.imports[i].params) ==> Indexable(id))
      && IndexableTree(t.imports[i].mod)
  }

  lemma {:induction false} AtPathDoesNotCrash(v: Value, path: seq<string>)
    requires forall k :: 0 <= k < |path| ==> IndexOk(path[k])
    ensures !AtPath(v, path).Crash?
    decreases |path|
  {
    if path != [] {
      assert IndexOk(path[0]);
      match v
      case List(items) =>
        var i := Numerals.ParseInt(path[0], 10, 64);
        if i.Some? && i.value < |items| {
          AtPathDoesNotCrash(items[i.value], path[1..]);
        }
      case Map(entries) =>
        if path[0] in entries {
          AtPathDoesNotCrash(entries[path[0]], path[1..]);
        }
      case _ =>
    }
  }

  /** A module whose imports are acyclic and whose identifiers are indexable never crashes:
      it evaluates or it fails, whatever its arguments. */
  lemma {:induction false} ModuleDoesNotCrash(t: ModuleTree, args: Dict)
    requires IsAcyclic(t, args.Keys) && IndexableTree(t)
    ensures !EvalModule(t, args).Crash?
    decreases t
  {
    var p := FillDefaults(t.params, args);
    assert p.Keys == BoundNames(t, args.Keys);
    var live, rank :| Ranked(t, p.Keys, live, rank) && LiveAcyclic(t, live);
    forall id | id in EntriesIdents(t.raw)
      ensures !Lookup(t, p, {}, id).Crash?
    {
      IdentDoesNotCrash(t, p, live, rank, {}, id, Refs(t, p.Keys, EntriesIdents(t.raw)), Highest(rank) + 1);
    }
    ReplaceEntriesCrashes(t.raw, ResolverOf(t, p, {}));
  }

  ghost function Highest(rank: seq<nat>): (h: nat)
    ensures forall i :: 0 <= i < |rank| ==> rank[i] <= h
  {
    if rank == [] then 0
    else
      var rest := Highest(rank[1..]);
      assert forall i :: 1 <= i < |rank| ==> rank[i] == rank[1..][i - 1];
      if rank[0] > rest then rank[0] else rest
  }

  lemma {:induction false} IdentDoesNotCrash(t: ModuleTree, p: Dict, live: set<nat>, rank: seq<nat>, stack: set<nat>,
                                             id: string, refs: set<nat>, height: nat)
    requires Ranked(t, p.Keys, live, rank) && LiveAcyclic(t, live) && IndexableTree(t) && Indexable(id)
    requires refs <= live && Refs(t, p.Keys, {id}) <= refs
    requires forall j :: j in refs ==> rank[j] < height
    requires forall j :: j in stack && j < |rank| ==> height <= rank[j]
    ensures !Lookup(t, p, stack, id).Crash?
    decreases t, height, 0
  {
    var segs := Segments(id);
    if segs[0] in p {
      AtPathDoesNotCrash(p[segs[0]], segs[1..]);
    } else if FindImport(t.imports, segs[0]).Some? {
      var i := FindImport(t.imports, segs[0]).value;
      assert i in Refs(t, p.Keys, {id});
      ImportDoesNotCrash(t, p, live, rank, stack, i);
      var raw := EvalImport(t, p, stack, i);
      if raw.Ok? && OnlyEntry(raw.value).Ok? {
        AtPathDoesNotCrash(OnlyEntry(raw.value).value, segs[1..]);
      }
    }
  }

  lemma {:induction false} ImportDoesNotCrash(t: ModuleTree, p: Dict, live: set<nat>, rank: seq<nat>, stack: set<nat>, i: nat)
    requires Ranked(t, p.Keys, live, rank) && LiveAcyclic(t, live) && IndexableTree(t)
    requires i in live
    requires forall j :: j in stack && j < |rank| ==> rank[i] < rank[j]
    ensures !EvalImport(t, p, stack, i).Crash?
    decreases t, rank[i], 1
  {
    var params, f := t.imports[i].params, ResolverOf(t, p, stack + {i});
    forall id | id in EntriesIdents(params)
      ensures !f(id).Crash?
    {
      IdentDoesNotCrash(t, p, live, rank, stack + {i}, id, ParamRefs(t, p.Keys, i), rank[i]);
    }
    ReplaceEntriesCrashes(params, f);
    var args := ReplaceEntries(params, f);
    if args.Ok? {
      assert args.value.Keys == params.Keys;
      ModuleDoesNotCrash(t.imports[i].mod, args.value);
    }
  }

  // ----- Only acyclic modules succeed -----

  /** Every import on a path of needed imports was itself evaluated. */
  lemma {:induction false} PathEvaluated(t: ModuleTree, p: Dict, stack: set<nat>, entries: Dict, path: seq<nat>) returns (under: set<nat>)
    requires ReplaceEntries(entries, ResolverOf(t, p, stack)).Ok?
    requires IsPath(t, p.Keys, Refs(t, p.Keys, EntriesIdents(entries)), path)
    ensures path[|path| - 1] < |t.imports| && EvalImport(t, p, under, path[|path| - 1]).Ok?
    decreases |path|
  {
    var k := path[0];
    ReferenceFilled(t, p, stack, entries, k);
    under := stack;
    if |path| > 1 {
      under := PathEvaluated(t, p, stack + {k}, t.imports[k].params, path[1..]);
      assert path[1..][|path[1..]| - 1] == path[|path| - 1];
    }
  }

  lemma EvaluatedWith(t: ModuleTree, p: Dict, stack: set<nat>, i: nat)
    requires i < |t.imports| && EvalImport(t, p, stack, i).Ok?
    ensures ReplaceEntries(t.imports[i].params, ResolverOf(t, p, stack + {i})).Ok?
    ensures exists with: Dict :: with.Keys == t.imports[i].params.Keys && EvalModule(t.imports[i].mod, with).Ok?
  {
    var with := ReplaceEntries(t.imports[i].params, ResolverOf(t, p, stack + {i})).value;
    assert with.Keys == t.imports[i].params.Keys && EvalModule(t.imports[i].mod, with).Ok?;
  }

  /** An import that the export needs, however indirectly, was evaluated, and does not need itself. */
  lemma NeededEvaluates(t: ModuleTree, args: Dict, i: nat)
    requires EvalModule(t, args).Ok?
    requires i in Needed(t, BoundNames(t, args.Keys))
    ensures exists with: Dict :: with.Keys == t.imports[i].params.Keys && EvalModule(t.imports[i].mod, with).Ok?
    ensures !Reachable(t, BoundNames(t, args.Keys), ParamRefs(t, BoundNames(t, args.Keys), i), i)
  {
    var p := FillDefaults(t.params, args);
    assert p.Keys == BoundNames(t, args.Keys);
    var path :| IsPath(t, p.Keys, Refs(t, p.Keys, EntriesIdents(t.raw)), path) && path[|path| - 1] == i;
    var under := PathEvaluated(t, p, {}, t.raw, path);
    EvaluatedWith(t, p, under, i);
    hide EvalImport, EvalModule;
    if Reachable(t, p.Keys, ParamRefs(t, p.Keys, i), i) {
      ReachedOffStack(t, p, under + {i}, t.imports[i].params, i);
    }
  }

  /** The imports that the export needs, directly or through the params of others. */
  ghost function Needed(t: ModuleTree, bound: set<string>): set<nat> {
    set i | i in Indices(t) && Reachable(t, bound, Refs(t, bound, EntriesIdents(t.raw)), i)
  }

  /** The imports that the params of import `i` need. */
  ghost function Below(t: ModuleTree, bound: set<string>, i: nat): (below: set<nat>)
    requires i < |t.imports|
    ensures below <= Indices(t)
  {
    set j | j in Indices(t) && Reachable(t, bound, ParamRefs(t, bound, i), j)
  }

  lemma {:induction false} PathExtends(t: ModuleTree, bound: set<string>, roots: set<nat>, path: seq<nat>, j: nat)
    requires IsPath(t, bound, roots, path) && path[|path| - 1] < |t.imports|
    requires j in ParamRefs(t, bound, path[|path| - 1])
    ensures IsPath(t, bound, roots, path + [j])
    decreases |path|
  {
    if |path| > 1 {
      assert path[1..][|path[1..]| - 1] == path[|path| - 1];
      PathExtends(t, bound, ParamRefs(t, bound, path[0]), path[1..], j);
      assert (path + [j])[1..] == path[1..] + [j];
    } else {
      assert (path + [j])[1..] == [j];
    }
  }

  lemma ReachableExtends(t: ModuleTree, bound: set<string>, roots: set<nat>, i: nat, j: nat)
    requires Reachable(t, bound, roots, i) && i < |t.imports| && j in ParamRefs(t, bound, i)
    ensures Reachable(t, bound, roots, j)
  {
    var path :| IsPath(t, bound, roots, path) && path[|path| - 1] == i;
    PathExtends(t, bound, roots, path, j);
    assert (path + [j])[|path + [j]| - 1] == j;
  }

  /** What an import's params name needs fewer imports than it does. */
  lemma BelowShrinks(t: ModuleTree, bound: set<string>, i: nat, j: nat)
    requires i < |t.imports| && j in ParamRefs(t, bound, i) && j < |t.imports|
    requires !Reachable(t, bound, ParamRefs(t, bound, j), j)
    ensures |Below(t, bound, j)| < |Below(t, bound, i)|
  {
    RootReachable(t, bound, ParamRefs(t, bound, i), j);
    forall k | k in Below(t, bound, j)
      ensures k in Below(t, bound, i)
    {
      ReachableStep(t, bound, ParamRefs(t, bound, i), j, k);
    }
    Fewer(Below(t, bound, j), Below(t, bound, i), j);
  }

  lemma Fewer(some: set<nat>, more: set<nat>, j: nat)
    requires some <= more && j in more && j !in some
    ensures |some| < |more|
  {
    assert |more - some| > 0 && |more| == |some| + |more - some|;
  }

  lemma NeededStep(t: ModuleTree, bound: set<string>, i: nat, j: nat)
    requires i in Needed(t, bound) && j in ParamRefs(t, bound, i)
    ensures j in Needed(t, bound)
    ensures !Reachable(t, bound, ParamRefs(t, bound, j), j) ==> |Below(t, bound, j)| < |Below(t, bound, i)|
  {
    hide Reachable;
    ReachableExtends(t, bound, Refs(t, bound, EntriesIdents(t.raw)), i, j);
    if !Reachable(t, bound, ParamRefs(t, bound, j), j) {
      BelowShrinks(t, bound, i, j);
    }
  }

  lemma RootsNeeded(t: ModuleTree, bound: set<string>)
    ensures Refs(t, bound, EntriesIdents(t.raw)) <= Needed(t, bound)
  {
    hide Reachable;
    var roots := Refs(t, bound, EntriesIdents(t.raw));
    forall i | i in roots
      ensures i in Needed(t, bound)
    {
      RootReachable(t, bound, roots, i);
    }
  }

  /** Imports ranked by how many others each needs. */
  ghost function Heights(t: ModuleTree, bound: set<string>): (rank: seq<nat>)
    ensures |rank| == |t.imports| && forall i :: 0 <= i < |rank| ==> rank[i] == |Below(t, bound, i)|
  {
    seq(|t.imports|, i requires 0 <= i < |t.imports| => |Below(t, bound, i)|)
  }

  lemma NeededRanked(t: ModuleTree, bound: set<string>)
    requires forall i :: i in Needed(t, bound) ==> !Reachable(t, bound, ParamRefs(t, bound, i), i)
    ensures Ranked(t, bound, Needed(t, bound), Heights(t, bound))
  {
    hide Reachable, Below, ParamRefs;
    var rank := Heights(t, bound);
    RootsNeeded(t, bound);
    forall i, j | i in Needed(t, bound) && j in ParamRefs(t, bound, i)
      ensures j in Needed(t, bound) && rank[j] < rank[i]
    {
      NeededStep(t, bound, i, j);
    }
  }

  /** Whatever evaluates is acyclic, here and in every module below that it needs. */
  lemma {:induction false} SuccessIsAcyclic(t: ModuleTree, args: Dict)
    requires EvalModule(t, args).Ok?
    ensures IsAcyclic(t, args.Keys)
    decreases t
  {
    var bound := BoundNames(t, args.Keys);
    var live := Needed(t, bound);
    forall i | i in live
      ensures IsAcyclic(t.imports[i].mod, t.imports[i].params.Keys)
      ensures !Reachable(t, bound, ParamRefs(t, bound, i), i)
    {
      NeededEvaluates(t, args, i);
      var with: Dict :| with.Keys == t.imports[i].params.Keys && EvalModule(t.imports[i].mod, with).Ok?;
      SuccessIsAcyclic(t.imports[i].mod, with);
    }
    NeededRanked(t, bound);
  }

  /** Where no index is negative, a module that does not fail evaluates exactly if it is acyclic, and
      recurses without end exactly if it is not. */
  lemma AcyclicExactly(t: ModuleTree, args: Dict)
    requires IndexableTree(t) && !EvalModule(t, args).Fail?
    ensures EvalModule(t, args).Ok? <==> IsAcyclic(t, args.Keys)
    ensures EvalModule(t, args) == Crash <==> !IsAcyclic(t, args.Keys)
  {
    if EvalModule(t, args).Ok? {
      SuccessIsAcyclic(t, args);
    }
    if IsAcyclic(t, args.Keys) {
      ModuleDoesNotCrash(t, args);
    }
  }

  /** The smallest circle: an import whose params need itself. */
  function SelfReference(below: ModuleTree): ModuleTree {
    ModuleTree(map[], [ImportTree("a", map["p" := Str("${a}")], below)], map["x" := Str("${a}")])
  }

  /** It crashes whatever module it imports. */
  lemma SelfReferenceCrashes(below: ModuleTree)
    ensures EvalModule(SelfReference(below), map[]) == Crash
  {
    var t := SelfReference(below);
    var p := FillDefaults(t.params, map[]);
    assert p == map[];
    var first, second := ResolverOf(t, p, {}), ResolverOf(t, p, {0});
    HoleOfA();
    assert t.imports[0].name == "a" && FindImport(t.imports, "a") == Some(0);
    assert EvalImport(t, p, {0}, 0) == Crash;
    assert Lookup(t, p, {0}, "a") == Crash;
    OnlyHole("p", second);
    assert {} + {0} == {0};
    assert EvalImport(t, p, {}, 0) == Crash;
    assert Lookup(t, p, {}, "a") == Crash;
    OnlyHole("x", first);
  }

  lemma HoleOfA()
    ensures Holes.IsHole("${a}") && Holes.HoleIdent("${a}") == "a" && Segments("a") == ["a"]
  {
    Holes.HoleTextAtStart("a", "");
    assert Holes.HoleText("a") == "${a}";
    Text.ContainsChar("a", '.');
    Text.SplitWithout("a", ".");
  }

  lemma OnlyHole(key: string, f: Resolver)
    requires f("a") == Crash
    ensures ReplaceEntries(map[key := Str("${a}")], f) == Crash
  {
    HoleOfA();
    var entries: Dict := map[key := Str("${a}")];
    assert key in entries && Replace(entries[key], f).Crash?;
  }
}
