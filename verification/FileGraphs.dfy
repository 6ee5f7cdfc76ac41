/** Which files can be unfolded at all: those from which no circle of imports is reached. */
module FileGraphs {
  import opened Outcomes
  import opened Values
  import opened ModuleFiles

  /** `decl` is an import declaration of the file. */
  ghost predicate Declares(files: Files, path: string, decl: Dict) {
    files.readFromPath(path).Some? &&
    exists obj: Dict :: obj in files.readFromPath(path).value
      && "imports" in obj && obj["imports"].List? && Map(decl) in obj["imports"].items
  }

  /** Files do not import each other in a circle: `rank` falls along imports, and no file imports an
      empty one. */
  ghost predicate RankedFiles(files: Files, rank: string -> nat) {
    forall path, decl :: Declares(files, path, decl) ==>
      match files.Target(path, decl)
      case Known(Ok(target)) => rank(target.1) < rank(path) && files.readFromPath(target.1) != Some([])
      case _ => true
  }

  /** Unfolding files that do not import each other in a circle ends within as many nested imports as
      the rank of the first. */
  lemma {:induction false} UnfoldingEnds(files: Files, rank: string -> nat, path: string, frames: nat)
    requires RankedFiles(files, rank) && frames >= rank(path)
    ensures files.TreesOf(path, frames) != Known(Crash)
    decreases frames, 3
  {
    if files.readFromPath(path).Some? {
      var objs := files.readFromPath(path).value;
      ComponentsEnd(files, rank, path, objs, frames);
    }
  }

  lemma {:induction false} ComponentsEnd(files: Files, rank: string -> nat, path: string, objs: seq<Dict>, frames: nat)
    requires RankedFiles(files, rank) && frames >= rank(path)
    requires files.readFromPath(path).Some? && forall obj :: obj in objs ==> obj in files.readFromPath(path).value
    ensures files.ComponentsOf(path, objs, frames) != Known(Crash)
    decreases frames, 2, |objs| + 1
  {
    hide RankedFiles, Files.ComponentOf;
    if objs != [] {
      ComponentsEnd(files, rank, path, objs[..|objs| - 1], frames);
      assert objs[|objs| - 1] in objs;
      ComponentEnds(files, rank, path, objs[|objs| - 1], frames);
    }
  }

  lemma {:induction false} ComponentEnds(files: Files, rank: string -> nat, path: string, obj: Dict, frames: nat)
    requires RankedFiles(files, rank) && frames >= rank(path)
    requires files.readFromPath(path).Some? && obj in files.readFromPath(path).value
    ensures files.ComponentOf(path, obj, frames) != Known(Crash)
    decreases frames, 2, 0
  {
    hide RankedFiles, Files.ImportsOf;
    if "imports" in obj && obj["imports"].List? {
      ImportsEnd(files, rank, path, obj, obj["imports"].items, frames);
    }
    ParamsNeverCrash(obj);
    files.ComponentIs(path, obj, frames);
  }

  lemma ParamsNeverCrash(obj: Dict)
    ensures ParamsSection(obj) != Known(Crash)
  {
    if "params" in obj && obj["params"].List? {
      DefsNeverCrash(obj["params"].items);
    }
  }

  lemma {:induction false} DefsNeverCrash(items: seq<Value>)
    ensures ParamDefsOf(items) != Known(Crash)
  {
    if items != [] {
      DefsNeverCrash(items[..|items| - 1]);
    }
  }

  lemma {:induction false} ImportsEnd(files: Files, rank: string -> nat, path: string, obj: Dict, items: seq<Value>, frames: nat)
    requires RankedFiles(files, rank) && frames >= rank(path)
    requires files.readFromPath(path).Some? && obj in files.readFromPath(path).value
    requires "imports" in obj && obj["imports"].List? && forall item :: item in items ==> item in obj["imports"].items
    ensures files.ImportsOf(path, items, frames) != Known(Crash)
    decreases frames, 1, |items|
  {
    hide Files.ImportOf, Files.TreesOf, Legible, Imports;
    if items != [] {
      var item := items[|items| - 1];
      ImportsEnd(files, rank, path, obj, items[..|items| - 1], frames);
      assert item in items;
      if item.Map? {
        assert Map(item.entries) in obj["imports"].items;
        assert Declares(files, path, item.entries);
        ImportEnds(files, rank, path, item.entries, frames);
      }
    }
  }

  lemma {:induction false} ImportEnds(files: Files, rank: string -> nat, path: string, decl: Dict, frames: nat)
    requires RankedFiles(files, rank) && frames >= rank(path) && Declares(files, path, decl)
    ensures files.ImportOf(path, decl, frames) != Known(Crash)
    decreases frames, 0
  {
    hide Files.TreesOf, Files.Target;
    var target := files.Target(path, decl);
    TargetNeverCrashes(files, path, decl);
    if !target.IsFailure() {
      var at := target.outcome.value.1;
      assert rank(at) < rank(path);
      UnfoldingEnds(files, rank, at, frames - 1);
      NoFileIsEmpty(files, at, frames - 1);
    }
  }

  lemma TargetNeverCrashes(files: Files, path: string, decl: Dict)
    ensures files.Target(path, decl) != Known(Crash)
  {
  }

  lemma NoFileIsEmpty(files: Files, path: string, frames: nat)
    requires files.readFromPath(path) != Some([])
    ensures files.TreesOf(path, frames) != Known(Ok([]))
  {
  }

  lemma SelfTarget(files: Files, path: string, name: string, written: string)
    requires name != "" && name != "params" && files.resolveImportPath(path, written) == Some(path)
    ensures files.Target(path, map[name := Str(written)]) == Known(Ok((name, path)))
  {
    var decl: Dict := map[name := Str(written)];
    assert decl.Keys == {name} && |decl| == 1;
    assert decl.Keys - {"params"} == {name};
    assert name in {Only({name})};
  }

  lemma SelfTree(files: Files, path: string, obj: Dict, frames: nat)
    requires files.readFromPath(path) == Some([obj])
    ensures files.TreesOf(path, frames) == files.ComponentsOf(path, [obj], frames)
  {
  }

  /** A file that imports itself is unfolded without end. */
  lemma {:induction false} SelfImportCrashes(files: Files, path: string, name: string, written: string, raw: Dict, frames: nat)
    requires name != "" && name != "params" && files.resolveImportPath(path, written) == Some(path)
    requires "imports" !in raw && "params" !in raw
    requires files.readFromPath(path) == Some([raw["imports" := List([Map(map[name := Str(written)])])]])
    ensures files.TreesOf(path, frames) == Known(Crash)
  {
    var decl: Dict := map[name := Str(written)];
    var items := [Map(decl)];
    var obj := raw["imports" := List(items)];
    SelfTarget(files, path, name, written);
    hide Files.Target, Files.TreesOf, Files.ComponentsOf, Files.ImportsOf;
    SelfTree(files, path, obj, frames);
    if frames > 0 {
      SelfImportCrashes(files, path, name, written, raw, frames - 1);
    }
    assert files.ImportOf(path, decl, frames) == Known(Crash);
    files.NoImports(path, items, frames);
    files.ImportsSnoc(path, items, 0, frames);
    assert items[..1] == items && obj["imports"].items == items;
    files.ComponentIs(path, obj, frames);
    files.NoComponents(path, [obj], frames);
    files.ComponentsSnoc(path, [obj], 0, frames);
    assert [obj][..1] == [obj];
  }

  // ----- Circles -----

  /** File `a` declares an import of file `b`. */
  ghost predicate Imports(files: Files, a: string, b: string) {
    exists decl, name :: Declares(files, a, decl) && files.Target(a, decl) == Known(Ok((name, b)))
  }

  /** Each file imports the next. */
  ghost predicate IsChain(files: Files, ps: seq<string>) {
    ps != [] && forall i: nat :: i + 1 < |ps| ==> ImportsNext(files, ps, i)
  }

  ghost predicate ImportsNext(files: Files, ps: seq<string>, i: nat)
    requires i + 1 < |ps|
  {
    Imports(files, ps[i], ps[i + 1])
  }

  ghost predicate IsCircle(files: Files, ps: seq<string>) {
    IsChain(files, ps) && |ps| >= 2 && ps[0] == ps[|ps| - 1]
  }

  /** No way along imports from the file leads to a circle. */
  ghost predicate NoCircle(files: Files, path: string) {
    forall way, circle ::
      IsChain(files, way) && way[0] == path && IsCircle(files, circle) ==> way[|way| - 1] != circle[0]
  }

  ghost predicate Unfolds(files: Files, path: string, frames: nat) {
    !files.TreesOf(path, frames).IsFailure()
  }

  lemma {:induction false} EveryComponent(files: Files, path: string, objs: seq<Dict>, frames: nat)
    ensures files.ComponentsOf(path, objs, frames).IsFailure() ||
            forall obj :: obj in objs ==> !files.ComponentOf(path, obj, frames).IsFailure()
  {
    hide Files.ComponentOf;
    if objs != [] {
      EveryComponent(files, path, objs[..|objs| - 1], frames);
      assert objs == objs[..|objs| - 1] + [objs[|objs| - 1]];
    }
  }

  lemma {:induction false} EveryImport(files: Files, path: string, items: seq<Value>, frames: nat)
    ensures files.ImportsOf(path, items, frames).IsFailure() ||
            forall item :: item in items ==> item.Map? && !files.ImportOf(path, item.entries, frames).IsFailure()
  {
    hide Files.ImportOf;
    if items != [] {
      EveryImport(files, path, items[..|items| - 1], frames);
      assert items == items[..|items| - 1] + [items[|items| - 1]];
    }
  }

  /** A file that unfolds needs room for each of its imports, which unfolds with one frame less. */
  lemma ImportUnfolds(files: Files, a: string, b: string, frames: nat)
    ensures Imports(files, a, b) && Unfolds(files, a, frames) ==> frames > 0 && Unfolds(files, b, frames - 1)
  {
    hide Files.TreesOf, Files.ComponentsOf, Files.ComponentOf, Files.ImportsOf, Files.ImportOf, Files.Target, ParamsSection;
    if !(Imports(files, a, b) && Unfolds(files, a, frames)) {
      return;
    }
    var decl, name :| Declares(files, a, decl) && files.Target(a, decl) == Known(Ok((name, b)));
    TreeIs(files, a, frames);
    var objs := files.readFromPath(a).value;
    var obj: Dict :| obj in objs && "imports" in obj && obj["imports"].List? && Map(decl) in obj["imports"].items;
    EveryComponent(files, a, objs, frames);
    files.ComponentIs(a, obj, frames);
    EveryImport(files, a, obj["imports"].items, frames);
    assert !files.ImportOf(a, Map(decl).entries, frames).IsFailure();
    ImportIs(files, a, decl, frames);
  }

  lemma TreeIs(files: Files, path: string, frames: nat)
    requires files.readFromPath(path).Some?
    ensures files.TreesOf(path, frames) == files.ComponentsOf(path, files.readFromPath(path).value, frames)
  {
    hide Files.ComponentsOf;
  }

  lemma ImportIs(files: Files, path: string, decl: Dict, frames: nat)
    requires !files.Target(path, decl).IsFailure()
    ensures var b, r := files.Target(path, decl).outcome.value.1, files.ImportOf(path, decl, frames);
      if frames == 0 || files.TreesOf(b, frames - 1) == Known(Crash) then r == Known(Crash)
      else if files.TreesOf(b, frames - 1).IsFailure() then r.IsFailure()
      else if files.TreesOf(b, frames - 1) == Known(Ok([])) then r == Known(Crash)
      else !r.IsFailure()
  {
    hide Files.TreesOf, Files.Target;
  }

  lemma {:induction false} ChainUnfolds(files: Files, ps: seq<string>, frames: nat)
    requires IsChain(files, ps) && Unfolds(files, ps[0], frames)
    ensures frames >= |ps| - 1 && Unfolds(files, ps[|ps| - 1], frames - (|ps| - 1))
    decreases |ps|
  {
    hide Imports, Unfolds;
    if |ps| > 1 {
      assert ImportsNext(files, ps, 0);
      ImportUnfolds(files, ps[0], ps[1], frames);
      var rest := ps[1..];
      forall i: nat | i + 1 < |rest|
        ensures ImportsNext(files, rest, i)
      {
        assert ImportsNext(files, ps, i + 1);
      }
      ChainUnfolds(files, rest, frames - 1);
    }
  }

  /** No room is enough for a file on a circle. */
  lemma {:induction false} CircleFails(files: Files, circle: seq<string>, frames: nat)
    requires IsCircle(files, circle)
    ensures !Unfolds(files, circle[0], frames)
  {
    if Unfolds(files, circle[0], frames) {
      ChainUnfolds(files, circle, frames);
      CircleFails(files, circle, frames - (|circle| - 1));
    }
  }

  /** Whatever unfolds reaches no circle of imports, of any length, however far away. */
  lemma UnfoldingIsAcyclic(files: Files, path: string, frames: nat)
    requires Unfolds(files, path, frames)
    ensures NoCircle(files, path)
  {
    forall way, circle | IsChain(files, way) && way[0] == path && IsCircle(files, circle)
      ensures way[|way| - 1] != circle[0]
    {
      ChainUnfolds(files, way, frames);
      CircleFails(files, circle, frames - (|way| - 1));
    }
  }

  // ----- Exactly -----

  /** Nothing in the file's own text stands in the way of unfolding it. */
  ghost predicate Legible(files: Files, path: string) {
    && files.readFromPath(path).Some?
    && (forall obj: Dict :: obj in files.readFromPath(path).value ==>
      && !ParamsSection(obj).IsFailure() && |WithoutSections(obj)| == 1
      && ("imports" in obj ==> obj["imports"].List? && forall item :: item in obj["imports"].items ==> item.Map?))
    && (forall decl :: Declares(files, path, decl) ==> !files.Target(path, decl).IsFailure())
    && forall b :: Imports(files, path, b) ==> files.readFromPath(b) != Some([])
  }

  /** Legible files whose imports are among them. */
  ghost predicate Library(files: Files, all: set<string>) {
    forall a :: a in all ==> Legible(files, a) && forall b :: Imports(files, a, b) ==> b in all
  }

  ghost predicate Crashes(files: Files, path: string, frames: nat) {
    files.TreesOf(path, frames) == Known(Crash)
  }

  ghost predicate EndsOrCrashes(files: Files, path: string, frames: nat) {
    Unfolds(files, path, frames) || Crashes(files, path, frames)
  }

  /** The imports of a legible file unfold if all their files do, and can only crash otherwise. */
  lemma {:induction false} ImportsOutcome(files: Files, path: string, obj: Dict, items: seq<Value>, frames: nat)
    requires Legible(files, path) && obj in files.readFromPath(path).value
    requires "imports" in obj && forall item :: item in items ==> item in obj["imports"].items
    requires frames > 0 ==> forall b :: Imports(files, path, b) ==> EndsOrCrashes(files, b, frames - 1)
    ensures var r := files.ImportsOf(path, items, frames);
      && (!r.IsFailure() || r == Known(Crash))
      && ((forall b :: Imports(files, path, b) ==> frames > 0 && Unfolds(files, b, frames - 1)) ==> !r.IsFailure())
    decreases |items|
  {
    if items != [] {
      var item := items[|items| - 1];
      ImportsOutcome(files, path, obj, items[..|items| - 1], frames);
      assert item in items;
      ImportOutcome(files, path, obj, item, frames);
    }
  }

  lemma ImportOutcome(files: Files, path: string, obj: Dict, item: Value, frames: nat)
    requires Legible(files, path) && obj in files.readFromPath(path).value
    requires "imports" in obj && item in obj["imports"].items
    requires frames > 0 ==> forall b :: Imports(files, path, b) ==> EndsOrCrashes(files, b, frames - 1)
    ensures item.Map?
    ensures var r := files.ImportOf(path, item.entries, frames);
      && (!r.IsFailure() || r == Known(Crash))
      && ((forall b :: Imports(files, path, b) ==> frames > 0 && Unfolds(files, b, frames - 1)) ==> !r.IsFailure())
  {
    hide Files.TreesOf, Files.Target, Files.ImportOf, ParamsSection;
    var decl := item.entries;
    assert Map(decl) in obj["imports"].items;
    assert Declares(files, path, decl);
    var (name, b) := files.Target(path, decl).outcome.value;
    assert Imports(files, path, b);
    ImportIs(files, path, decl, frames);
    if frames > 0 {
      NoFileIsEmpty(files, b, frames - 1);
    }
  }

  lemma {:induction false} ComponentsOutcome(files: Files, path: string, objs: seq<Dict>, frames: nat)
    requires Legible(files, path) && forall obj :: obj in objs ==> obj in files.readFromPath(path).value
    requires frames > 0 ==> forall b :: Imports(files, path, b) ==> EndsOrCrashes(files, b, frames - 1)
    ensures var r := files.ComponentsOf(path, objs, frames);
      && (!r.IsFailure() || r == Known(Crash))
      && ((forall b :: Imports(files, path, b) ==> frames > 0 && Unfolds(files, b, frames - 1)) ==> !r.IsFailure())
    decreases |objs|
  {
    hide Files.ImportsOf, Files.TreesOf, Imports;
    if objs != [] {
      var obj := objs[|objs| - 1];
      ComponentsOutcome(files, path, objs[..|objs| - 1], frames);
      assert obj in objs;
      hide Files.ComponentOf;
      if "imports" in obj {
        ImportsOutcome(files, path, obj, obj["imports"].items, frames);
      }
      files.ComponentIs(path, obj, frames);
    }
  }

  lemma {:induction false} LegibleOutcome(files: Files, all: set<string>, path: string, frames: nat)
    requires Library(files, all) && path in all
    ensures EndsOrCrashes(files, path, frames)
    decreases frames
  {
    hide Files.TreesOf, Imports;
    if frames > 0 {
      forall b | Imports(files, path, b)
        ensures EndsOrCrashes(files, b, frames - 1)
      {
        LegibleOutcome(files, all, b, frames - 1);
      }
    }
    TreeIs(files, path, frames);
    ComponentsOutcome(files, path, files.readFromPath(path).value, frames);
  }

  ghost predicate OnTrail(files: Files, all: set<string>, left: set<string>, trail: seq<string>) {
    trail != [] && IsChain(files, trail) && left == set p | p in all && p !in trail
  }

  /** Without a circle a chain never comes back, so as many frames as there are files left suffice. */
  lemma {:induction false} AcyclicUnfolds(files: Files, all: set<string>, left: set<string>, trail: seq<string>, frames: nat)
    requires Library(files, all) && OnTrail(files, all, left, trail)
    requires trail[|trail| - 1] in all && NoCircle(files, trail[0]) && frames >= |left|
    ensures Unfolds(files, trail[|trail| - 1], frames)
    decreases frames
  {
    hide Files.TreesOf, Imports, Legible, IsChain, NoCircle;
    var path := trail[|trail| - 1];
    forall b | Imports(files, path, b)
      ensures frames > 0 && Unfolds(files, b, frames - 1)
    {
      TrailGrows(files, trail, b);
      assert b in left;
      assert left - {b} == set p | p in all && p !in trail + [b];
      AcyclicUnfolds(files, all, left - {b}, trail + [b], frames - 1);
    }
    AllImportsUnfold(files, path, frames);
  }

  lemma AllImportsUnfold(files: Files, path: string, frames: nat)
    requires Legible(files, path)
    requires forall b :: Imports(files, path, b) ==> frames > 0 && Unfolds(files, b, frames - 1)
    ensures Unfolds(files, path, frames)
  {
    hide Files.TreesOf, Files.ComponentsOf, Imports;
    TreeIs(files, path, frames);
    ComponentsOutcome(files, path, files.readFromPath(path).value, frames);
  }

  lemma TrailGrows(files: Files, trail: seq<string>, b: string)
    requires IsChain(files, trail) && NoCircle(files, trail[0])
    ensures Imports(files, trail[|trail| - 1], b) ==> b !in trail && IsChain(files, trail + [b])
  {
    hide Imports;
    Extended(files, trail, b);
    if b in trail && Imports(files, trail[|trail| - 1], b) {
      ComesBack(files, trail, b);
    }
  }

  lemma ComesBack(files: Files, trail: seq<string>, b: string)
    requires IsChain(files, trail + [b]) && b in trail
    ensures !NoCircle(files, trail[0])
  {
    hide Imports;
    var longer := trail + [b];
    var j :| 0 <= j < |trail| && trail[j] == b;
    var way, circle := trail[..j + 1], longer[j..];
    PartOfChain(files, longer, 0, j + 1);
    PartOfChain(files, longer, j, |longer|);
    assert longer[0..j + 1] == way && longer[j..|longer|] == circle;
    assert IsCircle(files, circle) && way[|way| - 1] == circle[0] && way[0] == trail[0];
  }

  lemma Extended(files: Files, trail: seq<string>, b: string)
    requires IsChain(files, trail)
    ensures Imports(files, trail[|trail| - 1], b) ==> IsChain(files, trail + [b])
  {
    hide Imports;
    var longer := trail + [b];
    if !Imports(files, trail[|trail| - 1], b) {
      return;
    }
    forall i: nat | i + 1 < |longer|
      ensures ImportsNext(files, longer, i)
    {
      assert i + 1 < |trail| ==> ImportsNext(files, trail, i);
    }
  }

  lemma PartOfChain(files: Files, ps: seq<string>, lo: nat, hi: nat)
    requires IsChain(files, ps) && lo < hi <= |ps|
    ensures IsChain(files, ps[lo..hi])
  {
    hide Imports;
    var part := ps[lo..hi];
    forall i: nat | i + 1 < |part|
      ensures ImportsNext(files, part, i)
    {
      assert ImportsNext(files, ps, lo + i);
    }
  }

  /** Among finitely many legible files, one unfolds, with some room and then with as many frames as
      there are files, exactly when no circle of imports is reached from it; otherwise it crashes,
      whatever the room. */
  lemma UnfoldsExactly(files: Files, all: set<string>, path: string)
    requires Library(files, all) && path in all
    ensures (exists frames :: Unfolds(files, path, frames)) <==> NoCircle(files, path)
    ensures NoCircle(files, path) <==> Unfolds(files, path, |all|)
    ensures !NoCircle(files, path) <==> forall frames :: Crashes(files, path, frames)
  {
    hide Files.TreesOf, NoCircle, Library, Imports;
    if NoCircle(files, path) {
      var left := set p | p in all && p !in [path];
      assert left == all - {path};
      assert IsChain(files, [path]);
      AcyclicUnfolds(files, all, left, [path], |all|);
    }
    forall frames: nat
      ensures Crashes(files, path, frames) <==> !Unfolds(files, path, frames)
    {
      LegibleOutcome(files, all, path, frames);
    }
    forall frames: nat
      ensures Unfolds(files, path, frames) ==> NoCircle(files, path)
    {
      if Unfolds(files, path, frames) {
        UnfoldingIsAcyclic(files, path, frames);
      }
    }
    assert NoCircle(files, path) ==> !Crashes(files, path, |all|);
  }
}
