/** When evaluating a module whose imports are acyclic ends, and an input on which it does not. */
module Endings {
  import opened Outcomes
  import opened Values
  import opened Templates
  import opened ModuleTrees
  import opened Acyclic
  import opened PlainModules
  import opened Relapse
  import opened Evaluator
  import opened TemplateLaws
  import opened ModuleLaws
  import Holes
  import Text

  /** An acyclic module ends, with a result or an error, on a stack with room for its depth: it is
      enough that what is substituted holds no holes, or that no string holds two. */
  lemma AcyclicIsSafe(t: ModuleTree, args: Dict, frames: nat)
    requires IsAcyclic(t, args.Keys) && IndexableTree(t) && frames >= Depth(t)
    requires Calm(t, args) || OneHoleTree(t)
    ensures Safe(t, args, {}, frames, EvalModule(t, args), true)
  {
    RoomEmpty(t);
    ModuleDoesNotCrash(t, args);
  }

  // ----- Circles of siblings, run -----

  /** Imports in `loop` lead to each other by whichever of their params is filled first, and the export
      leads there as well. */
  ghost predicate CircleOfSiblings(t: ModuleTree, bound: set<string>, loop: set<nat>) {
    && EntriesLead(t, bound, loop, t.raw)
    && forall i :: i in loop ==> i < |t.imports| && EntriesLead(t, bound, loop, t.imports[i].params)
  }

  /** EvaluateExport and EvaluateModule overflow every stack on what is doomed: so they do here. */
  lemma CircleIsDoomed(context: EvalContext, m: Module, p: Dict, loop: set<nat>, clean: bool)
    requires WellFormed(m) && Pristine(m)
    ensures CircleOfSiblings(m.tree, p.Keys, loop) ==> context.EntriesDoomed(m, p, m.raw, clean)
  {
    if !CircleOfSiblings(m.tree, p.Keys, loop) {
      return;
    }
    assert context.Loop(m, p, loop) by {
      assert forall i :: i in loop ==> i < |m.imports| && Waiting(m.imports[i]);
    }
    forall k | k in m.raw
      ensures context.Doomed(m, p, m.raw[k], clean)
    {
      var text := Holes.Parse(m.raw[k].s);
      assert TextLeads(m.tree, p.Keys, loop, text);
      assert context.Trapped(m, p, Target(m.tree, p.Keys, text.ident).value);
    }
  }

  /** For one, the import whose params need itself. */
  lemma SelfReferenceIsCircle(below: ModuleTree)
    ensures CircleOfSiblings(SelfReference(below), {}, {0})
  {
    var t := SelfReference(below);
    HoleLeads(t, {}, "p");
    HoleLeads(t, {}, "x");
    assert t.imports[0].params == map["p" := Str("${a}")];
  }

  // ----- A failure that never ends -----

  /** Its import needs an unknown name. */
  function Retrying(raw: Dict): ModuleTree {
    ModuleTree(map[], [RetryingImport()], raw)
  }

  function RetryingImport(): ImportTree {
    ImportTree("a", map["x" := Str("${p}{a}")], Unresolved())
  }

  function Unresolved(): ModuleTree {
    ModuleTree(map[], [], map["r" := Str("${nope}")])
  }

  const DOLLAR: Dict := map["p" := Str("$")]

  /** The import is needed twice in one string. */
  const TWICE: Dict := map["y" := Str("${a}${a}")]

  /** The same beside a name that is unknown. */
  const TORN: Dict := map["x" := Str("${nope}"), "y" := Str("${a}${a}")]

  /** The first hole fails and leaves the import holding "${a}", so the second one needs it in order to
      fill it: EvaluateModule overflows every stack on what relapses. */
  lemma RetryRelapses(context: EvalContext, m: Module)
    requires WellFormed(m) && Pristine(m) && m.tree == Retrying(TWICE)
    ensures context.Ready(m, DOLLAR) && !m.isEvaluated
    ensures EntriesRelapse(m.tree, FillDefaults(m.params, DOLLAR), m.tree.raw)
  {
    hide Holes.Parse, Ensnares;
    context.PristineReady(m, DOLLAR);
    NoDefaults(DOLLAR);
    RetrySnares(TWICE);
    TwiceText();
    assert forall k :: k in TWICE ==> TWICE[k] == Str("${a}${a}");
    assert "y" in TWICE;
  }

  /** A map that is filled in one order fails at its first entry, and in the other order overflows every
      stack there: ReplaceInOrder says so of a first entry that names nothing, or is doomed. */
  lemma OrderDecides(context: EvalContext, m: Module)
    requires WellFormed(m) && Pristine(m) && m.tree == Retrying(TORN)
    ensures Enumerates(["x", "y"], m.raw.Keys) && Unnamed(m.tree, DOLLAR.Keys, m.raw["x"])
    ensures Enumerates(["y", "x"], m.raw.Keys) && context.Doomed(m, DOLLAR, m.raw["y"], true)
    ensures context.Consistent(m, DOLLAR)
  {
    hide Holes.Parse, Ensnares, Segments, EvalContext.Consistent;
    context.PristineReady(m, DOLLAR);
    assert context.Consistent(m, DOLLAR) by {
      NoDefaults(DOLLAR);
    }
    RetrySnares(TORN);
    TwiceText();
    NopeText();
    assert Retrying(TORN).imports == [RetryingImport()];
    assert FindImport(Retrying(TORN).imports, "nope") == None;
  }

  /** There are such modules. */
  method NewRetrying(raw: Dict) returns (m: Module)
    ensures WellFormed(m) && Pristine(m) && m.tree == Retrying(raw)
    ensures fresh(m.repr)
  {
    var below := new Module(map[], [], Unresolved().raw, Unresolved(), {});
    var imp := new Import("a", RetryingImport().params, below);
    m := new Module(map[], [imp], raw, Retrying(raw), {imp, below});
  }

  /** Nothing in the module's text is circular: it means a failure. */
  lemma RetryMeansFailure()
    ensures IsAcyclic(Retrying(TWICE), DOLLAR.Keys) && IndexableTree(Retrying(TWICE))
    ensures EvalModule(Retrying(TWICE), DOLLAR) == Fail
  {
    hide Holes.Parse, ReplaceEntries, Segments, IsAcyclic, IndexableTree, Ensnares, EntriesIdents;
    var t := Retrying(TWICE);
    RetryAcyclic();
    RetryIdents();
    RetrySnares(TWICE);
    ModuleDoesNotCrash(t, DOLLAR);
    if EvalModule(t, DOLLAR).Ok? {
      var f := ResolverOf(t, DOLLAR, {});
      NoDefaults(DOLLAR);
      SnaredFails(t, DOLLAR, {}, "a");
      ReplaceEntriesResolves(t.raw, f);
    }
  }

  lemma TwiceIdents()
    ensures Idents(Str("${a}${a}")) == {"a"} && Segments("a") == ["a"] && Indexable("a")
  {
    TwiceText();
    hide Holes.Parse, Segments, Indexable;
  }

  lemma ParamIdents()
    ensures Idents(Str("${p}{a}")) == {"p"} && Segments("p") == ["p"] && Indexable("p")
  {
    ParamText();
    hide Holes.Parse, Segments, Indexable;
  }

  lemma NopeIdents()
    ensures Idents(Str("${nope}")) == {"nope"} && Segments("nope") == ["nope"] && Indexable("nope")
  {
    NopeText();
    hide Holes.Parse, Segments, Indexable;
  }

  lemma RetryIdents()
    ensures EntriesIdents(Retrying(TWICE).raw) == {"a"} && Segments("a") == ["a"] && Indexable("a")
    ensures EntriesIdents(RetryingImport().params) == {"p"} && Segments("p") == ["p"] && Indexable("p")
    ensures EntriesIdents(Unresolved().raw) == {"nope"} && Segments("nope") == ["nope"] && Indexable("nope")
  {
    hide Holes.Parse, Segments, Indexable, Idents, EntriesIdents;
    var f: Resolver := _ => Fail;
    TwiceIdents();
    ParamIdents();
    NopeIdents();
    OneEntry("y", Str("${a}${a}"), f);
    OneEntry("x", Str("${p}{a}"), f);
    OneEntry("r", Str("${nope}"), f);
  }

  lemma RetryAcyclic()
    ensures IsAcyclic(Retrying(TWICE), DOLLAR.Keys) && IndexableTree(Retrying(TWICE))
  {
    hide Segments, EntriesIdents, Indexable;
    RetryIdents();
    UnresolvedAcyclic();
    var t, imp := Retrying(TWICE), RetryingImport();
    assert t.imports == [imp];
    assert imp.mod == Unresolved() && imp.params.Keys == {"x"};
    assert BoundNames(t, DOLLAR.Keys) == {"p"};
    assert ParamRefs(t, {"p"}, 0) == {};
    assert Ranked(t, {"p"}, {0}, [0]);
    assert LiveAcyclic(t, {0});
  }

  lemma UnresolvedAcyclic()
    ensures IsAcyclic(Unresolved(), {"x"}) && IndexableTree(Unresolved())
  {
    hide Segments, EntriesIdents, Indexable;
    RetryIdents();
    var t := Unresolved();
    assert Ranked(t, BoundNames(t, {"x"}), {}, []);
    assert LiveAcyclic(t, {});
  }

  lemma RetrySnares(raw: Dict)
    ensures Ensnares(Retrying(raw), DOLLAR, "a")
  {
    hide Holes.Parse, ReplaceEntries, EvalModule, Segments, EntriesLead;
    var t, f := Retrying(raw), ResolverOf(Retrying(raw), DOLLAR, {0});
    TwiceText();
    ParamText();
    assert t.imports[0] == RetryingImport() && t.imports[0].name == "a";
    assert FindImport(t.imports, "a") == Some(0);
    assert f("p") == Lookup(t, DOLLAR, {0}, "p") == Ok(Str("$"));
    ParamFilled(f);
    UnresolvedFails();
    NoDefaults(map["x" := Str("${a}")]);
    HoleLeads(t, DOLLAR.Keys, "x");
  }

  lemma HoleLeads(t: ModuleTree, bound: set<string>, key: string)
    requires t.imports != [] && t.imports[0].name == "a" && "a" !in bound
    ensures EntriesLead(t, bound, {0}, map[key := Str("${a}")])
  {
    hide Holes.Parse, Segments;
    HoleOfA();
    HoleParses("${a}");
    assert FindImport(t.imports, "a") == Some(0);
    assert TextLeads(t, bound, {0}, Holes.Parse("${a}"));
    var held: Dict := map[key := Str("${a}")];
    assert key in held;
  }

  lemma ParamFilled(f: Resolver)
    requires f("p") == Ok(Str("$"))
    ensures ReplaceEntries(RetryingImport().params, f) == Ok(map["x" := Str("${a}")])
  {
    ParamText();
    OneEntry("x", Str("${p}{a}"), f);
    assert Fill(Holes.Tail("{a}"), f) == Ok("{a}");
    assert Fill(Holes.Parse("${p}{a}"), f) == Ok("" + "$" + "{a}");
    assert "" + "$" + "{a}" == "${a}";
  }

  lemma UnresolvedFails()
    ensures EvalModule(Unresolved(), map["x" := Str("${a}")]) == Fail
  {
    NopeText();
    var t := Unresolved();
    var args: Dict := map["x" := Str("${a}")];
    assert FillDefaults(t.params, args) == args;
    var f := ResolverOf(t, args, {});
    assert f("nope") == Lookup(t, args, {}, "nope") == Fail;
    OneEntry("r", Str("${nope}"), f);
  }

  lemma NoDefaults(args: Dict)
    ensures FillDefaults(map[], args) == args
  {
  }

  // ----- The texts used -----

  lemma TwiceText()
    ensures Holes.Parse("${a}${a}") == Holes.Cut("", "a", Holes.Cut("", "a", Holes.Tail(""))) && !Holes.IsHole("${a}${a}")
    ensures Segments("a") == ["a"] && Indexable("a")
  {
    PlainName("a");
    var text := Holes.Cut("", "a", Holes.Cut("", "a", Holes.Tail("")));
    assert Holes.HoleText("a") == "${a}";
    assert Holes.Unparse(text) == "${a}${a}";
    assert Holes.Normal(text);
    Holes.ParseUnique(text);
    assert "${a}${a}"[3] == '}';
  }

  lemma ParamText()
    ensures Holes.Parse("${p}{a}") == Holes.Cut("", "p", Holes.Tail("{a}")) && !Holes.IsHole("${p}{a}")
    ensures Segments("p") == ["p"] && Indexable("p")
  {
    PlainName("p");
    var text := Holes.Cut("", "p", Holes.Tail("{a}"));
    assert Holes.HoleText("p") == "${p}";
    assert Holes.Unparse(text) == "${p}{a}";
    assert Holes.HoleFree("{a}");
    Holes.ParseUnique(text);
    assert "${p}{a}"[3] == '}';
  }

  lemma NopeText()
    ensures Holes.Parse("${nope}") == Holes.Cut("", "nope", Holes.Tail("")) && Holes.IsHole("${nope}") && Holes.HoleIdent("${nope}") == "nope"
    ensures Segments("nope") == ["nope"] && Indexable("nope")
  {
    PlainName("nope");
    Holes.HoleTextAtStart("nope", "");
    assert Holes.HoleText("nope") == "${nope}";
    HoleParses("${nope}");
  }
}
