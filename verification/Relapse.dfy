/** Failed imports that can never be evaluated again. A failed evaluation leaves the import with its
    substituted params, and these are scanned for holes once more when it is next needed. */
module Relapse {
  import opened Outcomes
  import opened Values
  import opened Templates
  import opened ModuleTrees
  import Holes

  /** The import an identifier names. */
  function Target(t: ModuleTree, bound: set<string>, ident: string): (r: Option<nat>)
    ensures r.Some? ==> r.value < |t.imports|
  {
    var name := Segments(ident)[0];
    if name in bound then None else FindImport(t.imports, name)
  }

  /** The identifier names neither a param nor an import. */
  predicate Nameless(t: ModuleTree, bound: set<string>, ident: string) {
    Segments(ident)[0] !in bound && Target(t, bound, ident).None?
  }

  /** The value is a hole that names neither a param nor an import. */
  predicate Unnamed(t: ModuleTree, bound: set<string>, v: Value) {
    v.Str? && Holes.IsHole(v.s) && Nameless(t, bound, Holes.HoleIdent(v.s))
  }

  /** Whichever entry is filled first, its first hole names an import in `loop`. */
  ghost predicate EntriesLead(t: ModuleTree, bound: set<string>, loop: set<nat>, entries: Dict) {
    && entries != map[]
    && forall k :: k in entries ==> entries[k].Str? && TextLeads(t, bound, loop, Holes.Parse(entries[k].s))
  }

  ghost predicate TextLeads(t: ModuleTree, bound: set<string>, loop: set<nat>, text: Holes.Template) {
    text.Cut? && Target(t, bound, text.ident).Some? && Target(t, bound, text.ident).value in loop
  }

  /** The import's params can be filled, its module does not evaluate with them, and filled they lead
      back to the import itself. */
  ghost predicate LeftCircular(t: ModuleTree, p: Dict, i: nat)
    requires i < |t.imports|
  {
    var args := ReplaceEntries(t.imports[i].params, ResolverOf(t, p, {i}));
    && args.Ok?
    && !EvalModule(t.imports[i].mod, args.value).Ok?
    && EntriesLead(t, p.Keys, {i}, FillDefaults(t.imports[i].mod.params, args.value))
  }

  /** Resolving the identifier leaves an import circular. */
  ghost predicate Ensnares(t: ModuleTree, p: Dict, ident: string) {
    var i := Target(t, p.Keys, ident);
    i.Some? && LeftCircular(t, p, i.value)
  }

  /** The first hole leaves an import circular and the second one needs it again. */
  ghost predicate Relapses(t: ModuleTree, p: Dict, text: Holes.Template) {
    && text.Cut? && text.rest.Cut?
    && Ensnares(t, p, text.ident)
    && Target(t, p.Keys, text.rest.ident) == Target(t, p.Keys, text.ident)
  }

  ghost predicate EntriesRelapse(t: ModuleTree, p: Dict, entries: Dict) {
    entries != map[] && forall k :: k in entries ==> entries[k].Str? && Relapses(t, p, Holes.Parse(entries[k].s))
  }

  lemma SnaredFails(t: ModuleTree, p: Dict, stack: set<nat>, ident: string)
    ensures Ensnares(t, p, ident) ==> !Lookup(t, p, stack, ident).Ok?
  {
    hide LeftCircular;
    if Target(t, p.Keys, ident).Some? {
      CircularFails(t, p, stack, Target(t, p.Keys, ident).value);
    }
  }

  lemma CircularFails(t: ModuleTree, p: Dict, stack: set<nat>, i: nat)
    requires i < |t.imports|
    ensures LeftCircular(t, p, i) ==> !EvalImport(t, p, stack, i).Ok?
  {
    hide EntriesLead, EvalModule;
    ResolverMonotone(t, p, {i}, stack + {i});
    ReplaceEntriesMonotone(t.imports[i].params, ResolverOf(t, p, stack + {i}), ResolverOf(t, p, {i}));
  }

  /** A text that is one single hole is cut into that hole and nothing else. */
  lemma HoleParses(s: string)
    requires Holes.IsHole(s)
    ensures Holes.Parse(s) == Holes.Cut("", Holes.HoleIdent(s), Holes.Tail(""))
  {
    var ident := Holes.HoleIdent(s);
    Holes.HoleTextAtStart(ident, "");
    assert s + "" == s;
    assert s[..|s|] == s && s[|s|..] == "";
  }
}
