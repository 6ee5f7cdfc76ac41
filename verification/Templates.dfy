/** What filling a template means, given what each identifier resolves to. Maps have no order
    here; the evaluator's methods iterate them in whatever order they like. */
module Templates {
  import opened Outcomes
  import opened Values
  import Holes

  type Resolver = string -> Outcome<Value>

  /** Only strings and numbers can fill a hole that is part of a longer string. */
  function Render(v: Value): Outcome<string> {
    match v
    case Str(s) => Ok(s)
    case Num(rendering) => Ok(rendering)
    case _ => Fail
  }

  function RenderHole(ident: string, rho: Resolver): Outcome<string> {
    var v :- rho(ident);
    Render(v)
  }

  /** fillString: every hole is resolved even after one has failed, so a later crash wins. */
  function Fill(t: Holes.Template, rho: Resolver): Outcome<string> {
    match t
    case Tail(text) => Ok(text)
    case Cut(text, ident, rest) =>
      match (RenderHole(ident, rho), Fill(rest, rho))
      case (Ok(s), Ok(more)) => Ok(text + s + more)
      case (Crash, _) => Crash
      case (_, Crash) => Crash
      case _ => Fail
  }

  function ReplaceString(s: string, rho: Resolver): Outcome<Value> {
    if Holes.IsHole(s) then rho(Holes.HoleIdent(s))
    else
      var filled :- Fill(Holes.Parse(s), rho);
      Ok(Str(filled))
  }

  function Replace(v: Value, rho: Resolver): Outcome<Value>
    decreases v, 2
  {
    match v
    case Str(s) => ReplaceString(s, rho)
    case List(items) =>
      var ys :- ReplaceItems(items, rho);
      Ok(List(ys))
    case Map(entries) =>
      var ys :- ReplaceEntries(entries, rho);
      Ok(Map(ys))
    case _ => Ok(v)
  }

  /** What one list item contributes: a spread's items, or one replaced item. */
  function ReplaceItem(v: Value, rho: Resolver): Outcome<seq<Value>>
    decreases v, 3
  {
    if v.Str? && Holes.IsSpread(v.s) then
      var w :- rho(Holes.SpreadIdent(v.s));
      if w.List? then Ok(w.items) else Fail
    else
      var w :- Replace(v, rho);
      Ok([w])
  }

  /** Items are taken in order; the first that does not succeed decides. */
  function ReplaceItems(items: seq<Value>, rho: Resolver): Outcome<seq<Value>>
    decreases items, 0
  {
    if items == [] then Ok([])
    else
      var ys :- ReplaceItem(items[0], rho);
      var zs :- ReplaceItems(items[1..], rho);
      Ok(ys + zs)
  }

  /** An entry that crashes in some iteration order makes the whole map crash. */
  function ReplaceEntries(entries: Dict, rho: Resolver): Outcome<Dict>
    decreases Map(entries), 0
  {
    if exists k :: k in entries && Replace(entries[k], rho).Crash? then Crash
    else if exists k :: k in entries && Replace(entries[k], rho).Fail? then Fail
    else Ok(map k | k in entries :: Replace(entries[k], rho).value)
  }

  /** Every identifier that filling `v` hands to the resolver. */
  function FillIdents(t: Holes.Template): set<string> {
    match t
    case Tail(_) => {}
    case Cut(_, ident, rest) => {ident} + FillIdents(rest)
  }

  function StringIdents(s: string): set<string> {
    if Holes.IsHole(s) then {Holes.HoleIdent(s)} else FillIdents(Holes.Parse(s))
  }

  function Idents(v: Value): set<string>
    decreases v, 2
  {
    match v
    case Str(s) => StringIdents(s)
    case List(items) => ItemsIdents(items)
    case Map(entries) => EntriesIdents(entries)
    case _ => {}
  }

  function ItemIdents(v: Value): set<string>
    decreases v, 3
  {
    if v.Str? && Holes.IsSpread(v.s) then {Holes.SpreadIdent(v.s)} else Idents(v)
  }

  function ItemsIdents(items: seq<Value>): set<string>
    decreases items, 0
  {
    if items == [] then {} else ItemIdents(items[0]) + ItemsIdents(items[1..])
  }

  function EntriesIdents(entries: Dict): set<string>
    decreases Map(entries), 0
  {
    set k, ident | k in entries && ident in Idents(entries[k]) :: ident
  }

  ghost predicate Below(ids: set<string>, f: Resolver, g: Resolver) {
    forall id :: id in ids ==> Refines(f(id), g(id))
  }

  /** Filling is monotone: a resolver that crashes less often changes nothing else, and only
      its values on the template's own identifiers matter. */
  lemma {:induction false} FillMonotone(t: Holes.Template, f: Resolver, g: Resolver)
    requires Below(FillIdents(t), f, g)
    ensures Refines(Fill(t, f), Fill(t, g))
  {
    if t.Cut? {
      assert Refines(f(t.ident), g(t.ident));
      FillMonotone(t.rest, f, g);
    }
  }

  lemma {:induction false} ReplaceStringMonotone(s: string, f: Resolver, g: Resolver)
    requires Below(StringIdents(s), f, g)
    ensures Refines(ReplaceString(s, f), ReplaceString(s, g))
  {
    if !Holes.IsHole(s) {
      FillMonotone(Holes.Parse(s), f, g);
    }
  }

  lemma {:induction false} ReplaceMonotone(v: Value, f: Resolver, g: Resolver)
    requires Below(Idents(v), f, g)
    ensures Refines(Replace(v, f), Replace(v, g))
    decreases v, 2
  {
    match v
    case Str(s) => ReplaceStringMonotone(s, f, g);
    case List(items) => ReplaceItemsMonotone(items, f, g);
    case Map(entries) => ReplaceEntriesMonotone(entries, f, g);
    case _ =>
  }

  lemma {:induction false} ReplaceItemMonotone(v: Value, f: Resolver, g: Resolver)
    requires Below(ItemIdents(v), f, g)
    ensures Refines(ReplaceItem(v, f), ReplaceItem(v, g))
    decreases v, 3
  {
    if !(v.Str? && Holes.IsSpread(v.s)) {
      ReplaceMonotone(v, f, g);
    }
  }

  lemma {:induction false} ReplaceItemsMonotone(items: seq<Value>, f: Resolver, g: Resolver)
    requires Below(ItemsIdents(items), f, g)
    ensures Refines(ReplaceItems(items, f), ReplaceItems(items, g))
    decreases items, 0
  {
    if items != [] {
      ReplaceItemMonotone(items[0], f, g);
      ReplaceItemsMonotone(items[1..], f, g);
    }
  }

  lemma {:induction false} ReplaceEntriesMonotone(entries: Dict, f: Resolver, g: Resolver)
    requires Below(EntriesIdents(entries), f, g)
    ensures Refines(ReplaceEntries(entries, f), ReplaceEntries(entries, g))
    decreases Map(entries), 0
  {
    forall k | k in entries
      ensures Refines(Replace(entries[k], f), Replace(entries[k], g))
    {
      assert forall id :: id in Idents(entries[k]) ==> id in EntriesIdents(entries);
      ReplaceMonotone(entries[k], f, g);
    }
    if ReplaceEntries(entries, f).Ok? {
      assert ReplaceEntries(entries, f).value == ReplaceEntries(entries, g).value;
    }
  }

  /** A successful fill resolved every identifier of the template. */
  lemma {:induction false} FillResolves(t: Holes.Template, f: Resolver)
    ensures Fill(t, f).Ok? <==> forall id :: id in FillIdents(t) ==> RenderHole(id, f).Ok?
  {
    if t.Cut? {
      FillResolves(t.rest, f);
      assert t.ident in FillIdents(t);
    }
  }

  lemma {:induction false} ReplaceResolves(v: Value, f: Resolver)
    requires Replace(v, f).Ok?
    ensures forall id :: id in Idents(v) ==> f(id).Ok?
    decreases v, 2
  {
    match v
    case Str(s) => if !Holes.IsHole(s) { FillResolves(Holes.Parse(s), f); }
    case List(items) => ReplaceItemsResolves(items, f);
    case Map(entries) => ReplaceEntriesResolves(entries, f);
    case _ =>
  }

  lemma {:induction false} ReplaceItemsResolves(items: seq<Value>, f: Resolver)
    requires ReplaceItems(items, f).Ok?
    ensures forall id :: id in ItemsIdents(items) ==> f(id).Ok?
    decreases items, 0
  {
    if items != [] {
      var v := items[0];
      if !(v.Str? && Holes.IsSpread(v.s)) {
        ReplaceResolves(v, f);
      }
      ReplaceItemsResolves(items[1..], f);
    }
  }

  lemma {:induction false} ReplaceEntriesResolves(entries: Dict, f: Resolver)
    requires ReplaceEntries(entries, f).Ok?
    ensures forall id :: id in EntriesIdents(entries) ==> f(id).Ok?
    decreases Map(entries), 0
  {
    forall k | k in entries
      ensures forall id :: id in Idents(entries[k]) ==> f(id).Ok?
    {
      ReplaceResolves(entries[k], f);
    }
  }

  lemma HolesHaveIdents(s: string)
    ensures StringIdents(s) == {} <==> !Holes.IsHole(s) && Holes.Parse(s).Tail?
  {
    if Holes.IsHole(s) {
      assert Holes.HoleIdent(s) in StringIdents(s);
    } else if Holes.Parse(s).Cut? {
      assert Holes.Parse(s).ident in StringIdents(s);
    }
  }

  /** A template without holes comes back unchanged, whatever the resolver. */
  lemma {:induction false} NoHolesNoChange(v: Value, f: Resolver)
    requires Idents(v) == {}
    ensures Replace(v, f) == Ok(v)
    decreases v, 2
  {
    match v
    case Str(s) =>
      Holes.ParseCuts(s);
      HolesHaveIdents(s);
    case List(items) => NoHolesNoItemsChange(items, f);
    case Map(entries) =>
      forall k | k in entries
        ensures Replace(entries[k], f) == Ok(entries[k])
      {
        assert forall id :: id in Idents(entries[k]) ==> id in EntriesIdents(entries);
        NoHolesNoChange(entries[k], f);
      }
      var replaced := ReplaceEntries(entries, f);
      assert replaced.Ok? && replaced.value == entries;
    case _ =>
  }

  lemma {:induction false} NoHolesNoItemsChange(items: seq<Value>, f: Resolver)
    requires ItemsIdents(items) == {}
    ensures ReplaceItems(items, f) == Ok(items)
    decreases items, 0
  {
    if items != [] {
      NoHolesNoChange(items[0], f);
      NoHolesNoItemsChange(items[1..], f);
      assert items == [items[0]] + items[1..];
    }
  }

  /** Lists are flattened piecewise and in order, so a spread is spliced exactly where it
      stands; the first part that does not succeed decides. */
  lemma {:induction false} ReplaceItemsConcat(xs: seq<Value>, ys: seq<Value>, f: Resolver)
    ensures ReplaceItems(xs + ys, f) ==
            match ReplaceItems(xs, f)
            case Ok(a) => (match ReplaceItems(ys, f) case Ok(b) => Ok(a + b) case o => o)
            case o => o
  {
    hide ReplaceItem;
    if xs == [] {
      assert xs + ys == ys;
      assert ReplaceItems(ys, f).Ok? ==> [] + ReplaceItems(ys, f).value == ReplaceItems(ys, f).value;
    } else {
      ReplaceItemsConcat(xs[1..], ys, f);
      assert (xs + ys)[0] == xs[0] && (xs + ys)[1..] == xs[1..] + ys;
      if ReplaceItems(xs, f).Ok? && ReplaceItems(ys, f).Ok? {
        var a, b, c := ReplaceItem(xs[0], f).value, ReplaceItems(xs[1..], f).value, ReplaceItems(ys, f).value;
        assert a + (b + c) == (a + b) + c;
      }
    }
  }

  lemma ReplaceItemsSnoc(items: seq<Value>, i: nat, f: Resolver)
    requires i < |items|
    ensures ReplaceItems(items[..i + 1], f) ==
            match ReplaceItems(items[..i], f)
            case Ok(a) => (match ReplaceItem(items[i], f) case Ok(b) => Ok(a + b) case o => o)
            case o => o
  {
    var last := [items[i]];
    assert items[..i + 1] == items[..i] + last;
    ReplaceItemsConcat(items[..i], last, f);
    assert ReplaceItem(items[i], f).Ok? ==> ReplaceItem(items[i], f).value + [] == ReplaceItem(items[i], f).value;
  }

  /** A list does not recover from a prefix that fails or crashes. */
  lemma ReplaceItemsPrefix(items: seq<Value>, i: nat, f: Resolver)
    requires i <= |items|
    ensures !ReplaceItems(items[..i], f).Ok? ==> ReplaceItems(items, f) == ReplaceItems(items[..i], f)
  {
    assert items == items[..i] + items[i..];
    ReplaceItemsConcat(items[..i], items[i..], f);
  }

  /** Filling crashes only where the resolver does. */
  lemma {:induction false} FillCrashes(t: Holes.Template, f: Resolver)
    requires forall id :: id in FillIdents(t) ==> !f(id).Crash?
    ensures !Fill(t, f).Crash?
  {
    if t.Cut? {
      assert t.ident in FillIdents(t);
      FillCrashes(t.rest, f);
    }
  }

  lemma {:induction false} ReplaceCrashes(v: Value, f: Resolver)
    requires forall id :: id in Idents(v) ==> !f(id).Crash?
    ensures !Replace(v, f).Crash?
    decreases v, 2
  {
    match v
    case Str(s) => if !Holes.IsHole(s) { FillCrashes(Holes.Parse(s), f); }
    case List(items) => ReplaceItemsCrashes(items, f);
    case Map(entries) => ReplaceEntriesCrashes(entries, f);
    case _ =>
  }

  lemma {:induction false} ReplaceItemsCrashes(items: seq<Value>, f: Resolver)
    requires forall id :: id in ItemsIdents(items) ==> !f(id).Crash?
    ensures !ReplaceItems(items, f).Crash?
    decreases items, 0
  {
    if items != [] {
      var v := items[0];
      assert ItemsIdents(items) == ItemIdents(v) + ItemsIdents(items[1..]);
      if !(v.Str? && Holes.IsSpread(v.s)) {
        ReplaceCrashes(v, f);
      }
      ReplaceItemsCrashes(items[1..], f);
    }
  }

  lemma {:induction false} ReplaceEntriesCrashes(entries: Dict, f: Resolver)
    requires forall id :: id in EntriesIdents(entries) ==> !f(id).Crash?
    ensures !ReplaceEntries(entries, f).Crash?
    decreases Map(entries), 0
  {
    forall k | k in entries
      ensures !Replace(entries[k], f).Crash?
    {
      assert forall id :: id in Idents(entries[k]) ==> id in EntriesIdents(entries);
      ReplaceCrashes(entries[k], f);
    }
  }

  /** No string of the template holds more than one hole. */
  ghost predicate OneHole(v: Value)
    decreases v, 1
  {
    match v
    case Str(s) => OneHoleText(Holes.Parse(s))
    case List(items) => OneHoleItems(items)
    case Map(entries) => OneHoleEntries(entries)
    case _ => true
  }

  ghost predicate OneHoleText(t: Holes.Template) {
    t.Cut? ==> t.rest.Tail?
  }

  ghost predicate OneHoleItems(items: seq<Value>)
    decreases items, 0
  {
    forall i :: 0 <= i < |items| ==> OneHole(items[i])
  }

  ghost predicate OneHoleEntries(entries: Dict)
    decreases Map(entries), 0
  {
    forall k :: k in entries ==> OneHole(entries[k])
  }
}
