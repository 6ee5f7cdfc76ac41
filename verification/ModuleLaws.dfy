/** What names mean in a module, told without the functions that look them up. */
module ModuleLaws {
  import opened Outcomes
  import opened Values
  import opened Templates
  import opened ModuleTrees
  import opened TemplateLaws
  import opened Acyclic
  import Holes
  import Numerals
  import Text

  // ----- Paths -----

  /** The parts of a map are its entries, those of a list its items; nothing else has parts. */
  lemma PartsOf(v: Value, key: string)
    ensures match v
      case Map(entries) => AtPath(v, [key]) == if key in entries then Ok(entries[key]) else Fail
      case List(items) =>
        (match Numerals.ParseInt(key, 10, 64)
         case Some(i) => AtPath(v, [key]) == if i >= |items| then Fail else if i >= 0 then Ok(items[i]) else Crash
         case None => AtPath(v, [key]) == Fail)
      case _ => AtPath(v, [key]) == Fail
    ensures AtPath(v, []) == Ok(v)
  {
  }

  predicate IsName(name: string) {
    '.' !in name && Holes.BraceFree(name)
  }

  lemma PlainName(name: string)
    requires IsName(name)
    ensures Segments(name) == [name] && Indexable(name)
  {
    Text.ContainsChar(name, '.');
    Text.SplitWithout(name, ".");
  }

  /** An identifier is a name and a path into what the name stands for, joined by dots. */
  function Dotted(name: string, path: seq<string>): string {
    Text.Join([name] + path, ".")
  }

  lemma DottedSegments(name: string, path: seq<string>)
    requires '.' !in name && forall x :: x in path ==> '.' !in x
    ensures Segments(Dotted(name, path)) == [name] + path
  {
    assert forall x :: x in [name] + path ==> x == name || x in path;
    Text.SplitJoin([name] + path, '.');
  }

  // ----- Names -----

  /** A param shadows an import of its name, and is followed along the path. */
  lemma ParamByName(t: ModuleTree, p: Dict, stack: set<nat>, name: string, path: seq<string>)
    requires '.' !in name && (forall x :: x in path ==> '.' !in x) && name in p
    ensures Lookup(t, p, stack, Dotted(name, path)) == AtPath(p[name], path)
  {
    DottedSegments(name, path);
    assert ([name] + path)[1..] == path;
  }

  /** Otherwise the name is the first import that has it: its only entry is followed along the path; it
      fails, or crashes, as the import does, and fails if there is not exactly one entry. */
  lemma ImportByName(t: ModuleTree, p: Dict, stack: set<nat>, name: string, path: seq<string>, i: nat)
    requires '.' !in name && (forall x :: x in path ==> '.' !in x) && name !in p
    requires i < |t.imports| && t.imports[i].name == name && forall j :: 0 <= j < i ==> t.imports[j].name != name
    ensures var r := Lookup(t, p, stack, Dotted(name, path));
      match EvalImport(t, p, stack, i)
      case Ok(raw) => (forall k :: raw.Keys == {k} ==> r == AtPath(raw[k], path)) && ((forall k :: raw.Keys != {k}) ==> r == Fail)
      case Fail => r == Fail
      case Crash => r == Crash
  {
    DottedSegments(name, path);
    assert ([name] + path)[1..] == path;
    assert FindImport(t.imports, name) == Some(i);
    if EvalImport(t, p, stack, i).Ok? {
      var raw := EvalImport(t, p, stack, i).value;
      forall k | raw.Keys == {k}
        ensures OnlyEntry(raw) == Ok(raw[k])
      {
        assert k in raw;
      }
    }
  }

  /** A name that is neither is an error. */
  lemma UnknownName(t: ModuleTree, p: Dict, stack: set<nat>, name: string, path: seq<string>)
    requires '.' !in name && (forall x :: x in path ==> '.' !in x) && name !in p
    requires forall j :: 0 <= j < |t.imports| ==> t.imports[j].name != name
    ensures Lookup(t, p, stack, Dotted(name, path)) == Fail
  {
    DottedSegments(name, path);
  }

  /** An import that is not under way is evaluated with its own params, filled by the siblings. */
  lemma ImportTakesParams(t: ModuleTree, p: Dict, stack: set<nat>, i: nat, args: Dict)
    requires i < |t.imports| && i !in stack
    requires ReplaceEntries(t.imports[i].params, ResolverOf(t, p, stack + {i})) == Ok(args)
    ensures EvalImport(t, p, stack, i) == EvalModule(t.imports[i].mod, args)
  {
  }

  // ----- Params -----

  /** An argument is used as given; a param that is not given has its default, if it has one. */
  lemma ParamsInForce(defs: map<string, ParamDef>, args: Dict, name: string)
    ensures var p := FillDefaults(defs, args);
      && (name in args ==> name in p && p[name] == args[name])
      && (name !in args && name in defs && defs[name].default != Null ==> name in p && p[name] == defs[name].default)
      && (name !in args && (name !in defs || defs[name].default == Null) ==> name !in p)
  {
  }

  /** A module that exports a name alone: an argument, a default, or, unless an import has the
      name, an error. */
  lemma OneHoleExport(t: ModuleTree, args: Dict, key: string, name: string)
    requires IsName(name) && t.raw == map[key := Str(Holes.HoleText(name))]
    ensures name in args ==> EvalModule(t, args) == Ok(map[key := args[name]])
    ensures name !in args && name in t.params && t.params[name].default != Null ==>
      EvalModule(t, args) == Ok(map[key := t.params[name].default])
    ensures name !in args && (name !in t.params || t.params[name].default == Null) ==>
      (forall j :: 0 <= j < |t.imports| ==> t.imports[j].name != name) ==> EvalModule(t, args) == Fail
  {
    var p := FillDefaults(t.params, args);
    var f := ResolverOf(t, p, {});
    ParamsInForce(t.params, args, name);
    PlainName(name);
    HoleBecomesValue(name, f);
    OneEntry(key, Str(Holes.HoleText(name)), f);
    assert f(name) == Lookup(t, p, {}, name);
  }
}
