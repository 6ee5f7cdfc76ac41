/** The example modules of testdata/imports, and that they mean what the files beside them say. */
module ImportExamples {
  import opened Outcomes
  import opened Values
  import opened Templates
  import opened ModuleTrees
  import opened TemplateLaws
  import opened ModuleLaws
  import Holes
  import Numerals
  import Text

  function Hole(name: string): Value {
    Str(Holes.HoleText(name))
  }

  function Part(name: string, index: string): Value {
    Str(Holes.HoleText(Dotted(name, [index])))
  }

  function Spread(name: string): Value {
    Str(Holes.HoleText(name + "..."))
  }

  // ----- The examples -----

  /** params.yaml */
  function Params(): ModuleTree {
    ModuleTree(
      map["with_default" := ParamDef("has a default value", Num("1")),
          "without_default" := ParamDef("doesn't have a default value", Null)],
      [],
      map["jill" := List([Hole("with_default"), Hole("without_default")])])
  }

  /** no_imports.yaml */
  function NoImports(): ModuleTree {
    ModuleTree(map[], [], map["thing" := Str("something")])
  }

  /** import_params.yaml */
  function ImportParams(): ModuleTree {
    ModuleTree(
      map[],
      [ImportTree("foo", map["without_default" := Str("bar")], Params())],
      map["baz" := List([Hole("foo"), Part("foo", "0"), Part("foo", "1"), Spread("foo")])])
  }

  /** combined_imports.yaml */
  function CombinedImports(): ModuleTree {
    ModuleTree(
      map[],
      [ImportTree("foo", map["with_default" := Str("banana"), "without_default" := Hole("bar")], Params()),
       ImportTree("bar", map[], NoImports())],
      map["malcolm" := List([Hole("foo"), Hole("bar")])])
  }

  /** params_and_imports.yaml */
  function ParamsAndImports(): ModuleTree {
    ModuleTree(
      map["bar" := ParamDef("a param called bar", Null)],
      [ImportTree("foo", map["without_default" := Hole("bar")], Params())],
      map["leslie" := Hole("foo")])
  }

  /** import_depth_two.yaml */
  function ImportDepthTwo(): ModuleTree {
    ModuleTree(
      map[],
      [ImportTree("intermediary", map["bar" := Str("tortoise")], ParamsAndImports())],
      map["brendan" := Map(map["a" := Str("some string"), "b" := Hole("intermediary")])])
  }

  // ----- Single steps -----

  lemma HoleOfParam(t: ModuleTree, p: Dict, stack: set<nat>, name: string)
    requires IsName(name) && name in p
    ensures Replace(Hole(name), ResolverOf(t, p, stack)) == Ok(p[name]) && NotSpread(Hole(name))
  {
    ParamByName(t, p, stack, name, []);
    PartsOf(p[name], "");
    HoleBecomesValue(name, ResolverOf(t, p, stack));
    NameNotSpread(name);
  }

  lemma HoleOfImport(t: ModuleTree, p: Dict, stack: set<nat>, name: string, i: nat, key: string, v: Value)
    requires IsName(name) && name !in p && i < |t.imports| && t.imports[i].name == name
    requires forall j :: 0 <= j < i ==> t.imports[j].name != name
    requires EvalImport(t, p, stack, i) == Ok(map[key := v])
    ensures ResolverOf(t, p, stack)(name) == Ok(v)
    ensures Replace(Hole(name), ResolverOf(t, p, stack)) == Ok(v) && NotSpread(Hole(name))
  {
    ImportByName(t, p, stack, name, [], i);
    OneKey(key, v);
    PartsOf(v, "");
    HoleBecomesValue(name, ResolverOf(t, p, stack));
    NameNotSpread(name);
  }

  lemma PartOfImport(t: ModuleTree, p: Dict, stack: set<nat>, name: string, i: nat, key: string, v: Value, index: string)
    requires IsName(name) && IsName(index) && name !in p && i < |t.imports| && t.imports[i].name == name
    requires forall j :: 0 <= j < i ==> t.imports[j].name != name
    requires EvalImport(t, p, stack, i) == Ok(map[key := v])
    requires index != ""
    ensures Replace(Part(name, index), ResolverOf(t, p, stack)) == AtPath(v, [index]) && NotSpread(Part(name, index))
  {
    ImportByName(t, p, stack, name, [index], i);
    OneKey(key, v);
    var id := Dotted(name, [index]);
    assert [name] + [index] == [name, index] && [name, index][1..] == [index];
    assert Text.Join([index], ".") == index;
    assert id == name + "." + index;
    HoleBecomesValue(id, ResolverOf(t, p, stack));
    hide Lookup, EvalImport, AtPath;
    EndNotSpread(name + ".", index);
  }

  /** No name ends in a dot. */
  lemma EndNotSpread(start: string, name: string)
    requires '.' !in name && (start == "" || name != "")
    ensures NotSpread(Str(Holes.HoleText(start + name)))
  {
    var s := Holes.HoleText(start + name);
    if |s| >= 6 {
      assert name != "" && s[|s| - 2] == name[|name| - 1] && name[|name| - 1] in name;
      assert s[|s| - 4..|s| - 1][2] == s[|s| - 2];
    }
  }

  lemma OneKey(key: string, v: Value)
    ensures var raw: Dict := map[key := v]; raw.Keys == {key} && raw[key] == v && forall k :: raw.Keys == {k} ==> k == key
  {
    var raw: Dict := map[key := v];
    forall k | raw.Keys == {k}
      ensures k == key
    {
      assert key in raw.Keys;
    }
  }

  predicate NotSpread(v: Value) {
    v.Str? ==> !Holes.IsSpread(v.s)
  }

  lemma NameNotSpread(name: string)
    requires IsName(name)
    ensures NotSpread(Hole(name))
  {
    EndNotSpread("", name);
    assert "" + name == name;
  }

  /** A list without spreads is replaced item by item. */
  lemma {:induction false} ItemByItem(items: seq<Value>, values: seq<Value>, f: Resolver)
    requires |items| == |values|
    requires forall i :: 0 <= i < |items| ==> NotSpread(items[i]) && Replace(items[i], f) == Ok(values[i])
    ensures ReplaceItems(items, f) == Ok(values)
  {
    if items != [] {
      ItemByItem(items[1..], values[1..], f);
      assert values == [values[0]] + values[1..];
    }
  }

  lemma {:induction false} TwoEntries(k: string, v: Value, l: string, w: Value, f: Resolver, x: Value, y: Value)
    requires k != l && Replace(v, f) == Ok(x) && Replace(w, f) == Ok(y)
    ensures ReplaceEntries(map[k := v, l := w], f) == Ok(map[k := x, l := y])
  {
    var entries: Dict := map[k := v, l := w];
    hide Replace;
    assert k in entries && l in entries && entries[k] == v && entries[l] == w;
    var r := ReplaceEntries(entries, f);
    assert r.Ok? && r.value == map[k := x, l := y];
  }

  lemma TextStays(s: string, f: Resolver)
    requires '$' !in s
    ensures Replace(Str(s), f) == Ok(Str(s))
  {
    assert forall i: nat :: i < |s| ==> s[i] in s;
    ScalarsStay(Str(s), f);
  }

  // ----- What they mean -----

  /** Given the one param, the other is its default: a list of both. */
  lemma {:induction false} ParamsMean(args: Dict, v: Value)
    requires "without_default" in args && args["without_default"] == v
    ensures EvalModule(Params(), args) ==
      Ok(map["jill" := List([if "with_default" in args then args["with_default"] else Num("1"), v])])
  {
    var t := Params();
    var p := FillDefaults(t.params, args);
    var f := ResolverOf(t, p, {});
    ParamsInForce(t.params, args, "with_default");
    ParamsInForce(t.params, args, "without_default");
    hide FillDefaults, Lookup, Replace, ReplaceItems, ReplaceEntries, Hole, NotSpread;
    HoleOfParam(t, p, {}, "with_default");
    HoleOfParam(t, p, {}, "without_default");
    ListBecomes("jill", [Hole("with_default"), Hole("without_default")], [p["with_default"], v], f);
  }

  /** An export that is a list without spreads. */
  lemma ListBecomes(key: string, items: seq<Value>, values: seq<Value>, f: Resolver)
    requires |items| == |values|
    requires forall i :: 0 <= i < |items| ==> NotSpread(items[i]) && Replace(items[i], f) == Ok(values[i])
    ensures ReplaceEntries(map[key := List(items)], f) == Ok(map[key := List(values)])
  {
    ItemByItem(items, values, f);
    OneEntry(key, List(items), f);
  }

  /** A param without default that is not given is an error. */
  lemma {:induction false} ParamMissing()
    ensures EvalModule(Params(), map[]) == Fail
  {
    var t := Params();
    var p := FillDefaults(t.params, map[]);
    var f := ResolverOf(t, p, {});
    ParamsInForce(t.params, map[], "with_default");
    ParamsInForce(t.params, map[], "without_default");
    hide FillDefaults, Replace, ReplaceItems, ReplaceEntries, NotSpread;
    HoleOfParam(t, p, {}, "with_default");
    PlainName("without_default");
    HoleBecomesValue("without_default", f);
    NameNotSpread("without_default");
    assert f("without_default") == Lookup(t, p, {}, "without_default") == Fail;
    SecondFails("jill", Hole("with_default"), Hole("without_default"), f);
  }

  lemma SecondFails(key: string, first: Value, second: Value, f: Resolver)
    requires NotSpread(first) && NotSpread(second) && Replace(first, f).Ok? && Replace(second, f) == Fail
    ensures ReplaceEntries(map[key := List([first, second])], f) == Fail
  {
    assert [first, second][1..] == [second] && [second][1..] == [];
    assert ReplaceItems([second], f) == Fail;
    assert ReplaceItem(first, f).Ok?;
    assert ReplaceItems([first, second], f) == Fail;
    OneEntry(key, List([first, second]), f);
  }

  /** import_params.after.yaml */
  lemma {:induction false} ImportParamsMean()
    ensures var foo := List([Num("1"), Str("bar")]);
      EvalModule(ImportParams(), map[]) == Ok(map["baz" := List([foo, Num("1"), Str("bar"), Num("1"), Str("bar")])])
  {
    FooOfImportParams();
    assert FillDefaults(ImportParams().params, map[]) == map[];
    hide EvalImport, EvalModule, Params;
    ImportedList(ImportParams(), map[], "foo", "baz", "jill", Num("1"), Str("bar"));
  }

  /** An export of an imported list, its two items, and the list spread. */
  lemma {:induction false} ImportedList(t: ModuleTree, args: Dict, name: string, key: string, entry: string, x: Value, y: Value)
    requires IsName(name) && t.imports != [] && t.imports[0].name == name && name !in FillDefaults(t.params, args)
    requires t.raw == map[key := List([Hole(name), Part(name, "0"), Part(name, "1"), Spread(name)])]
    requires EvalImport(t, FillDefaults(t.params, args), {}, 0) == Ok(map[entry := List([x, y])])
    ensures EvalModule(t, args) == Ok(map[key := List([List([x, y]), x, y, x, y])])
  {
    var p := FillDefaults(t.params, args);
    var f := ResolverOf(t, p, {});
    assert EvalModule(t, args) == ReplaceEntries(t.raw, f);
    hide EvalModule, AtPath, Replace, ReplaceItems, ReplaceEntries, FillDefaults, Hole, Part, NotSpread;
    HoleOfImport(t, p, {}, name, 0, entry, List([x, y]));
    PartOfImport(t, p, {}, name, 0, entry, List([x, y]), "0");
    PartOfImport(t, p, {}, name, 0, entry, List([x, y]), "1");
    Indexes(x, y);
    hide Lookup, EvalImport, Spread, Segments, FindImport;
    AllOfList(f, name, key, x, y);
  }

  lemma AllOfList(f: Resolver, name: string, key: string, x: Value, y: Value)
    requires IsName(name) && f(name) == Ok(List([x, y])) && Replace(Hole(name), f) == Ok(List([x, y])) && NotSpread(Hole(name))
    requires Replace(Part(name, "0"), f) == Ok(x) && NotSpread(Part(name, "0"))
    requires Replace(Part(name, "1"), f) == Ok(y) && NotSpread(Part(name, "1"))
    ensures ReplaceEntries(map[key := List([Hole(name), Part(name, "0"), Part(name, "1"), Spread(name)])], f) ==
      Ok(map[key := List([List([x, y]), x, y, x, y])])
  {
    hide Replace, ReplaceItems, ReplaceEntries, Hole, Part, NotSpread;
    var items, values := [Hole(name), Part(name, "0"), Part(name, "1")], [List([x, y]), x, y];
    ItemByItem(items, values, f);
    NothingReplaced(f);
    SpreadSplices(items, name, [], f, values, []);
    ListExport(key, items + [Spread(name)] + [], values + [x, y] + [], f);
    assert items + [Spread(name)] + [] == [Hole(name), Part(name, "0"), Part(name, "1"), Spread(name)];
    assert values + [x, y] + [] == [List([x, y]), x, y, x, y];
  }

  lemma NothingReplaced(f: Resolver)
    ensures ReplaceItems([], f) == Ok([])
  {
  }

  lemma ListExport(key: string, items: seq<Value>, values: seq<Value>, f: Resolver)
    requires ReplaceItems(items, f) == Ok(values)
    ensures ReplaceEntries(map[key := List(items)], f) == Ok(map[key := List(values)])
  {
    OneEntry(key, List(items), f);
  }

  lemma Indexes(x: Value, y: Value)
    ensures AtPath(List([x, y]), ["0"]) == Ok(x) && AtPath(List([x, y]), ["1"]) == Ok(y)
  {
    Numerals.Pow2Positive(63);
    assert Numerals.Print(0, 10) == "0" && Numerals.Print(1, 10) == "1";
    assert Numerals.Pow2(63) > 1 by {
      Numerals.Pow2Positive(62);
    }
    AtPathIndex([x, y], 0);
    AtPathIndex([x, y], 1);
  }

  lemma {:induction false} FooOfImportParams()
    ensures EvalImport(ImportParams(), map[], {}, 0) == Ok(map["jill" := List([Num("1"), Str("bar")])])
  {
    var t := ImportParams();
    var args: Dict := map["without_default" := Str("bar")];
    var f := ResolverOf(t, map[], {} + {0});
    assert t.imports[0].params == args;
    TextStays("bar", f);
    OneEntry("without_default", Str("bar"), f);
    ImportTakesParams(t, map[], {}, 0, args);
    ParamsMean(args, Str("bar"));
    assert "with_default" !in args;
  }

  // ----- Imports that need each other -----

  /** The import is found by its name, and its export is the one entry. */
  ghost predicate Gives(t: ModuleTree, p: Dict, stack: set<nat>, name: string, v: Value) {
    && IsName(name) && name !in p
    && exists i: nat, key ::
      && i < |t.imports| && t.imports[i].name == name && (forall j :: 0 <= j < i ==> t.imports[j].name != name)
      && EvalImport(t, p, stack, i) == Ok(map[key := v])
  }

  lemma GivenHole(t: ModuleTree, p: Dict, stack: set<nat>, name: string, v: Value)
    requires Gives(t, p, stack, name, v)
    ensures Replace(Hole(name), ResolverOf(t, p, stack)) == Ok(v) && NotSpread(Hole(name))
  {
    var i: nat, key :| i < |t.imports| && t.imports[i].name == name && (forall j :: 0 <= j < i ==> t.imports[j].name != name)
      && EvalImport(t, p, stack, i) == Ok(map[key := v]);
    HoleOfImport(t, p, stack, name, i, key, v);
  }

  lemma GivesByParam(t: ModuleTree, p: Dict, stack: set<nat>, i: nat, param: string, v: Value, w: Value, key: string, r: Value)
    requires i < |t.imports| && i !in stack && t.imports[i].params == map[param := v]
    requires IsName(t.imports[i].name) && t.imports[i].name !in p && forall j :: 0 <= j < i ==> t.imports[j].name != t.imports[i].name
    requires Replace(v, ResolverOf(t, p, stack + {i})) == Ok(w)
    requires EvalModule(t.imports[i].mod, map[param := w]) == Ok(map[key := r])
    ensures Gives(t, p, stack, t.imports[i].name, r)
  {
    hide EvalModule, IsName;
    OneEntry(param, v, ResolverOf(t, p, stack + {i}));
    ImportTakesParams(t, p, stack, i, map[param := w]);
  }

  lemma GivesByParams(t: ModuleTree, p: Dict, stack: set<nat>, i: nat, k: string, v: Value, x: Value, l: string, w: Value, y: Value,
                      key: string, r: Value)
    requires i < |t.imports| && i !in stack && k != l && t.imports[i].params == map[k := v, l := w]
    requires IsName(t.imports[i].name) && t.imports[i].name !in p && forall j :: 0 <= j < i ==> t.imports[j].name != t.imports[i].name
    requires Replace(v, ResolverOf(t, p, stack + {i})) == Ok(x) && Replace(w, ResolverOf(t, p, stack + {i})) == Ok(y)
    requires EvalModule(t.imports[i].mod, map[k := x, l := y]) == Ok(map[key := r])
    ensures Gives(t, p, stack, t.imports[i].name, r)
  {
    hide EvalModule, IsName;
    TwoEntries(k, v, l, w, ResolverOf(t, p, stack + {i}), x, y);
    ImportTakesParams(t, p, stack, i, map[k := x, l := y]);
  }

  lemma GivesPlainly(t: ModuleTree, p: Dict, stack: set<nat>, i: nat, key: string, r: Value)
    requires i < |t.imports| && i !in stack && t.imports[i].params == map[]
    requires IsName(t.imports[i].name) && t.imports[i].name !in p && forall j :: 0 <= j < i ==> t.imports[j].name != t.imports[i].name
    requires EvalModule(t.imports[i].mod, map[]) == Ok(map[key := r])
    ensures Gives(t, p, stack, t.imports[i].name, r)
  {
    assert ReplaceEntries(map[], ResolverOf(t, p, stack + {i})) == Ok(map[]);
    hide EvalModule, IsName;
    ImportTakesParams(t, p, stack, i, map[]);
  }

  lemma ExportsHole(t: ModuleTree, args: Dict, key: string, name: string, v: Value)
    requires t.raw == map[key := Hole(name)] && Gives(t, FillDefaults(t.params, args), {}, name, v)
    ensures EvalModule(t, args) == Ok(map[key := v])
  {
    hide Gives;
    GivenHole(t, FillDefaults(t.params, args), {}, name, v);
    OneEntry(key, Hole(name), ResolverOf(t, FillDefaults(t.params, args), {}));
  }

  lemma ExportsHoles(t: ModuleTree, args: Dict, key: string, n: string, v: Value, m: string, w: Value)
    requires t.raw == map[key := List([Hole(n), Hole(m)])]
    requires Gives(t, FillDefaults(t.params, args), {}, n, v) && Gives(t, FillDefaults(t.params, args), {}, m, w)
    ensures EvalModule(t, args) == Ok(map[key := List([v, w])])
  {
    hide Gives, Hole, NotSpread, Replace;
    var p := FillDefaults(t.params, args);
    GivenHole(t, p, {}, n, v);
    GivenHole(t, p, {}, m, w);
    ListBecomes(key, [Hole(n), Hole(m)], [v, w], ResolverOf(t, p, {}));
  }

  /** no_imports.after.yaml */
  lemma {:induction false} NoImportsMean()
    ensures EvalModule(NoImports(), map[]) == Ok(map["thing" := Str("something")])
  {
    assert NoImports().raw == map["thing" := Str("something")];
    hide NoImports;
    ExportsText(NoImports(), map[], "thing", "something");
  }

  lemma ExportsText(t: ModuleTree, args: Dict, key: string, text: string)
    requires t.raw == map[key := Str(text)] && '$' !in text
    ensures EvalModule(t, args) == Ok(map[key := Str(text)])
  {
    var f := ResolverOf(t, FillDefaults(t.params, args), {});
    TextStays(text, f);
    OneEntry(key, Str(text), f);
  }

  lemma CombinedParts()
    ensures var t := CombinedImports();
      && |t.imports| == 2 && t.imports[0].name == "foo" && t.imports[1].name == "bar" && IsName("foo") && IsName("bar")
      && t.imports[0].mod == Params() && t.imports[1].mod == NoImports() && t.imports[1].params == map[]
      && t.imports[0].params == map["with_default" := Str("banana"), "without_default" := Hole("bar")]
      && FillDefaults(t.params, map[]) == map[] && t.raw == map["malcolm" := List([Hole("foo"), Hole("bar")])]
  {
  }

  /** combined_imports.after.yaml: one import's params need another import. */
  lemma {:induction false} CombinedImportsMean()
    ensures EvalModule(CombinedImports(), map[]) ==
      Ok(map["malcolm" := List([List([Str("banana"), Str("something")]), Str("something")])])
  {
    var t := CombinedImports();
    CombinedParts();
    NoImportsMean();
    hide CombinedImports, Params, NoImports, EvalModule, Gives, Replace, Hole, FillDefaults;
    var foo := List([Str("banana"), Str("something")]);
    GivesPlainly(t, map[], {0}, 1, "thing", Str("something"));
    GivesPlainly(t, map[], {}, 1, "thing", Str("something"));
    GivenHole(t, map[], {0}, "bar", Str("something"));
    assert {} + {0} == {0};
    TextStays("banana", ResolverOf(t, map[], {0}));
    ParamsMean(map["with_default" := Str("banana"), "without_default" := Str("something")], Str("something"));
    GivesByParams(t, map[], {}, 0, "with_default", Str("banana"), Str("banana"), "without_default", Hole("bar"), Str("something"), "jill", foo);
    ExportsHoles(t, map[], "malcolm", "foo", foo, "bar", Str("something"));
  }

  lemma IntermediaryParts(v: Value)
    ensures var t := ParamsAndImports();
      && |t.imports| == 1 && t.imports[0] == ImportTree("foo", map["without_default" := Hole("bar")], Params())
      && IsName("foo") && IsName("bar") && "foo" !in map["bar" := v]
      && FillDefaults(t.params, map["bar" := v]) == map["bar" := v] && t.raw == map["leslie" := Hole("foo")]
  {
  }

  /** An argument goes through to an import's params. */
  lemma {:induction false} IntermediaryMeans(v: Value)
    ensures EvalModule(ParamsAndImports(), map["bar" := v]) == Ok(map["leslie" := List([Num("1"), v])])
  {
    var t := ParamsAndImports();
    var p: Dict := map["bar" := v];
    IntermediaryParts(v);
    hide ParamsAndImports, Params, EvalModule, Gives, Replace, Hole, FillDefaults, IsName;
    HoleOfParam(t, p, {} + {0}, "bar");
    ParamsMean(map["without_default" := v], v);
    GivesByParam(t, p, {}, 0, "without_default", Hole("bar"), v, "jill", List([Num("1"), v]));
    ExportsHole(t, p, "leslie", "foo", List([Num("1"), v]));
  }

  lemma DepthTwoParts()
    ensures var t := ImportDepthTwo();
      && |t.imports| == 1 && t.imports[0] == ImportTree("intermediary", map["bar" := Str("tortoise")], ParamsAndImports())
      && IsName("intermediary") && FillDefaults(t.params, map[]) == map[]
      && t.raw == map["brendan" := Map(map["a" := Str("some string"), "b" := Hole("intermediary")])]
  {
  }

  /** import_depth_two.after.yaml */
  lemma {:induction false} ImportDepthTwoMeans()
    ensures EvalModule(ImportDepthTwo(), map[]) ==
      Ok(map["brendan" := Map(map["a" := Str("some string"), "b" := List([Num("1"), Str("tortoise")])])])
  {
    var t := ImportDepthTwo();
    var got := List([Num("1"), Str("tortoise")]);
    DepthTwoParts();
    hide ImportDepthTwo, ParamsAndImports, EvalModule, Gives, Hole, NotSpread, Replace, IsName, FillDefaults;
    TextStays("tortoise", ResolverOf(t, map[], {} + {0}));
    IntermediaryMeans(Str("tortoise"));
    GivesByParam(t, map[], {}, 0, "bar", Str("tortoise"), Str("tortoise"), "leslie", got);
    GivenHole(t, map[], {}, "intermediary", got);
    ExportsMap(t, "brendan", "a", "some string", "b", Hole("intermediary"), got);
  }

  lemma ExportsMap(t: ModuleTree, key: string, k: string, text: string, l: string, v: Value, w: Value)
    requires t.raw == map[key := Map(map[k := Str(text), l := v])] && k != l && '$' !in text
    requires FillDefaults(t.params, map[]) == map[] && Replace(v, ResolverOf(t, map[], {})) == Ok(w)
    ensures EvalModule(t, map[]) == Ok(map[key := Map(map[k := Str(text), l := w])])
  {
    var f := ResolverOf(t, map[], {});
    TextStays(text, f);
    TwoEntries(k, Str(text), l, v, f, Str(text), w);
    OneEntry(key, Map(map[k := Str(text), l := v]), f);
  }
}
