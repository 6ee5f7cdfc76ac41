/** Modules whose text has one of the characters of a hole in holes only, run on values without it:
    substituted text is never scanned for holes to any effect, so substituting twice is substituting once. */
module PlainModules {
  import opened Outcomes
  import opened Values
  import opened Templates
  import opened ModuleTrees
  import opened Stability
  import Numerals

  ghost predicate LacksDict(c: char, entries: Dict) {
    forall k :: k in entries ==> Plain(c, entries[k])
  }

  ghost predicate CleanDict(c: char, entries: Dict) {
    forall k :: k in entries ==> Clean(c, entries[k])
  }

  /** The character stands only in holes, and not in defaults, here and in every module below. */
  ghost predicate CleanTree(c: char, t: ModuleTree) {
    && CleanDict(c, t.raw)
    && (forall k :: k in t.params ==> Plain(c, t.params[k].default))
    && forall i :: 0 <= i < |t.imports| ==> CleanDict(c, t.imports[i].params) && CleanTree(c, t.imports[i].mod)
  }

  /** No string in the entries has a hole, for lack of one of its characters. */
  ghost predicate PlainDict(entries: Dict) {
    exists c :: HoleChar(c) && LacksDict(c, entries)
  }

  ghost predicate CalmBy(c: char, t: ModuleTree, p: Dict) {
    HoleChar(c) && CleanTree(c, t) && LacksDict(c, p)
  }

  /** A module's text and its params in force: nothing that is substituted holds a hole. */
  ghost predicate Calm(t: ModuleTree, p: Dict) {
    exists c :: CalmBy(c, t, p)
  }

  lemma PlainEntries(entries: Dict, g: Resolver)
    requires PlainDict(entries)
    ensures ReplaceEntries(entries, g) == Ok(entries) && EntriesIdents(entries) == {} && OneHoleEntries(entries)
  {
    var c :| HoleChar(c) && LacksDict(c, entries);
    PlainHasNoHoles(c, Map(entries));
    NoHolesNoChange(Map(entries), g);
    assert Replace(Map(entries), g) == Ok(Map(entries));
    forall k | k in entries
      ensures OneHole(entries[k])
    {
      PlainHasOneHole(c, entries[k]);
    }
  }

  lemma {:induction false} PlainHasOneHole(c: char, v: Value)
    requires HoleChar(c) && Plain(c, v)
    ensures OneHole(v)
    decreases v, 1
  {
    match v
    case Str(s) => LacksHoles(c, s);
    case List(items) =>
      forall i | 0 <= i < |items|
        ensures OneHole(items[i])
      {
        PlainHasOneHole(c, items[i]);
      }
    case Map(entries) =>
      forall k | k in entries
        ensures OneHole(entries[k])
      {
        PlainHasOneHole(c, entries[k]);
      }
    case _ =>
  }

  lemma {:induction false} AtPathPlain(c: char, v: Value, path: seq<string>)
    requires Plain(c, v) && AtPath(v, path).Ok?
    ensures Plain(c, AtPath(v, path).value)
    decreases |path|
  {
    if path != [] {
      match v
      case List(items) => AtPathPlain(c, items[Numerals.ParseInt(path[0], 10, 64).value], path[1..]);
      case Map(entries) => AtPathPlain(c, entries[path[0]], path[1..]);
    }
  }

  lemma DefaultsPlain(c: char, t: ModuleTree, args: Dict)
    requires CleanTree(c, t) && LacksDict(c, args)
    ensures LacksDict(c, FillDefaults(t.params, args))
  {
  }

  lemma CalmDefaults(t: ModuleTree, args: Dict)
    requires Calm(t, args)
    ensures Calm(t, FillDefaults(t.params, args)) && PlainDict(FillDefaults(t.params, args))
  {
    var c :| CalmBy(c, t, args);
    DefaultsPlain(c, t, args);
    assert CalmBy(c, t, FillDefaults(t.params, args));
  }

  lemma FilledPlain(c: char, entries: Dict, f: Resolver)
    requires CleanDict(c, entries) && PlainResults(c, EntriesIdents(entries), f) && ReplaceEntries(entries, f).Ok?
    ensures LacksDict(c, ReplaceEntries(entries, f).value)
  {
    ReplacesPlain(c, Map(entries), f);
    assert Replace(Map(entries), f) == Ok(Map(ReplaceEntries(entries, f).value));
  }

  /** In a calm run everything that is resolved is plain. */
  lemma {:induction false} LookupPlain(c: char, t: ModuleTree, p: Dict, stack: set<nat>, ident: string)
    requires CalmBy(c, t, p) && Lookup(t, p, stack, ident).Ok?
    ensures Plain(c, Lookup(t, p, stack, ident).value)
    decreases t, Indices(t) - stack, 1
  {
    var segs := Segments(ident);
    if segs[0] in p {
      AtPathPlain(c, p[segs[0]], segs[1..]);
    } else {
      var i := FindImport(t.imports, segs[0]).value;
      ImportPlain(c, t, p, stack, i);
      var raw := EvalImport(t, p, stack, i).value;
      var k :| raw.Keys == {k};
      assert k in raw;
      AtPathPlain(c, OnlyEntry(raw).value, segs[1..]);
    }
  }

  lemma {:induction false} ArgsPlain(c: char, t: ModuleTree, p: Dict, stack: set<nat>, i: nat)
    requires CalmBy(c, t, p) && i < |t.imports| && i in stack
    requires ReplaceEntries(t.imports[i].params, ResolverOf(t, p, stack)).Ok?
    ensures LacksDict(c, ReplaceEntries(t.imports[i].params, ResolverOf(t, p, stack)).value)
    decreases t, Indices(t) - stack, 2
  {
    var f := ResolverOf(t, p, stack);
    forall id | id in EntriesIdents(t.imports[i].params) && f(id).Ok?
      ensures Plain(c, f(id).value)
    {
      LookupPlain(c, t, p, stack, id);
    }
    FilledPlain(c, t.imports[i].params, f);
  }

  lemma {:induction false} ImportPlain(c: char, t: ModuleTree, p: Dict, stack: set<nat>, i: nat)
    requires CalmBy(c, t, p) && i < |t.imports| && EvalImport(t, p, stack, i).Ok?
    ensures LacksDict(c, EvalImport(t, p, stack, i).value)
    decreases t, Indices(t) - stack, 0
  {
    assert i in Indices(t) - stack;
    ArgsPlain(c, t, p, stack + {i}, i);
    var args := ReplaceEntries(t.imports[i].params, ResolverOf(t, p, stack + {i})).value;
    ModulePlain(c, t.imports[i].mod, args);
  }

  lemma {:induction false} ModulePlain(c: char, t: ModuleTree, args: Dict)
    requires CalmBy(c, t, args) && EvalModule(t, args).Ok?
    ensures LacksDict(c, EvalModule(t, args).value)
    decreases t, Indices(t), 3
  {
    DefaultsPlain(c, t, args);
    var p := FillDefaults(t.params, args);
    var f := ResolverOf(t, p, {});
    assert Indices(t) - {} == Indices(t);
    forall id | id in EntriesIdents(t.raw) && f(id).Ok?
      ensures Plain(c, f(id).value)
    {
      LookupPlain(c, t, p, {}, id);
    }
    FilledPlain(c, t.raw, f);
  }

  lemma DefaultsTwice(defs: map<string, ParamDef>, args: Dict)
    ensures FillDefaults(defs, FillDefaults(defs, args)) == FillDefaults(defs, args)
  {
  }
}
