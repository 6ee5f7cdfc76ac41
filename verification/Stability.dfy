/** When a filled template holds no holes any more. */
module Stability {
  import opened Outcomes
  import opened Values
  import opened Templates
  import Holes

  /** Each of them is needed to write a hole. */
  predicate HoleChar(c: char) {
    c == '$' || c == '{' || c == '}'
  }

  /** No string in the value has the character. */
  ghost predicate Plain(c: char, v: Value) {
    match v
    case Str(s) => c !in s
    case Num(rendering) => c !in rendering
    case List(items) => forall i :: 0 <= i < |items| ==> Plain(c, items[i])
    case Map(entries) => forall k :: k in entries ==> Plain(c, entries[k])
    case _ => true
  }

  /** The character stands only in holes. */
  ghost predicate CleanText(c: char, t: Holes.Template) {
    c !in t.text && (t.Cut? ==> CleanText(c, t.rest))
  }

  ghost predicate Clean(c: char, v: Value) {
    match v
    case Str(s) => CleanText(c, Holes.Parse(s))
    case Num(rendering) => c !in rendering
    case List(items) => forall i :: 0 <= i < |items| ==> Clean(c, items[i])
    case Map(entries) => forall k :: k in entries ==> Clean(c, entries[k])
    case _ => true
  }

  ghost predicate PlainResults(c: char, ids: set<string>, f: Resolver) {
    forall id :: id in ids && f(id).Ok? ==> Plain(c, f(id).value)
  }

  lemma LacksHoles(c: char, s: string)
    requires HoleChar(c) && c !in s
    ensures Holes.HoleFree(s) && Holes.Parse(s) == Holes.Tail(s) && !Holes.IsHole(s)
  {
    assert forall i: nat, j: nat :: Holes.HoleAt(s, i, j) ==> s[i] in s && s[i + 1] in s && s[j - 1] in s;
    Holes.ParseUnique(Holes.Tail(s));
  }

  ghost predicate NamesPlain(t: Holes.Template) {
    t.Cut? ==> Holes.BraceFree(t.ident) && NamesPlain(t.rest)
  }

  /** Whatever is written with holes between pieces of text without the character is clean: for one,
      JSON text without '$', with any number of holes. */
  lemma WrittenIsClean(c: char, t: Holes.Template)
    requires HoleChar(c) && CleanText(c, t) && NamesPlain(t)
    ensures Clean(c, Str(Holes.Unparse(t)))
  {
    WrittenIsNormal(c, t);
    Holes.ParseUnique(t);
  }

  lemma {:induction false} WrittenIsNormal(c: char, t: Holes.Template)
    requires HoleChar(c) && CleanText(c, t) && NamesPlain(t)
    ensures Holes.Normal(t)
  {
    LacksHoles(c, t.text);
    if t.Cut? {
      WrittenIsNormal(c, t.rest);
    }
  }

  lemma {:induction false} PlainHasNoHoles(c: char, v: Value)
    requires HoleChar(c) && Plain(c, v)
    ensures Idents(v) == {}
    decreases v, 1
  {
    match v
    case Str(s) => LacksHoles(c, s);
    case List(items) => PlainItemsHaveNoHoles(c, items);
    case Map(entries) =>
      forall k | k in entries
        ensures Idents(entries[k]) == {}
      {
        PlainHasNoHoles(c, entries[k]);
      }
    case _ =>
  }

  lemma {:induction false} PlainItemsHaveNoHoles(c: char, items: seq<Value>)
    requires HoleChar(c) && forall i :: 0 <= i < |items| ==> Plain(c, items[i])
    ensures ItemsIdents(items) == {}
    decreases items, 0
  {
    if items != [] {
      PlainHasNoHoles(c, items[0]);
      PlainItemsHaveNoHoles(c, items[1..]);
    }
  }

  lemma {:induction false} FillsPlain(c: char, t: Holes.Template, f: Resolver)
    requires CleanText(c, t) && PlainResults(c, FillIdents(t), f)
    ensures Fill(t, f).Ok? ==> c !in Fill(t, f).value
  {
    if t.Cut? {
      assert t.ident in FillIdents(t);
      FillsPlain(c, t.rest, f);
    }
  }

  lemma {:induction false} ReplacesPlain(c: char, v: Value, f: Resolver)
    requires Clean(c, v) && PlainResults(c, Idents(v), f)
    ensures Replace(v, f).Ok? ==> Plain(c, Replace(v, f).value)
    decreases v, 1
  {
    match v
    case Str(s) =>
      if Holes.IsHole(s) {
        assert Holes.HoleIdent(s) in Idents(v);
      } else {
        FillsPlain(c, Holes.Parse(s), f);
      }
    case List(items) => ReplacesItemsPlain(c, items, f);
    case Map(entries) =>
      forall k | k in entries
        ensures Replace(entries[k], f).Ok? ==> Plain(c, Replace(entries[k], f).value)
      {
        assert forall id :: id in Idents(entries[k]) ==> id in EntriesIdents(entries);
        ReplacesPlain(c, entries[k], f);
      }
    case _ =>
  }

  lemma {:induction false} ReplacesItemsPlain(c: char, items: seq<Value>, f: Resolver)
    requires (forall i :: 0 <= i < |items| ==> Clean(c, items[i])) && PlainResults(c, ItemsIdents(items), f)
    ensures ReplaceItems(items, f).Ok? ==>
      forall i :: 0 <= i < |ReplaceItems(items, f).value| ==> Plain(c, ReplaceItems(items, f).value[i])
    decreases items, 0
  {
    if items != [] {
      var v := items[0];
      assert forall id :: id in ItemIdents(v) ==> id in ItemsIdents(items);
      assert forall id :: id in ItemsIdents(items[1..]) ==> id in ItemsIdents(items);
      if v.Str? && Holes.IsSpread(v.s) {
        assert Holes.SpreadIdent(v.s) in ItemIdents(v);
      } else {
        ReplacesPlain(c, v, f);
      }
      ReplacesItemsPlain(c, items[1..], f);
    }
  }

  /** If one of the characters of a hole stands only in holes, and what fills the holes lacks it, then
      the filled template is final: filling it again, with whatever resolver, changes nothing. */
  lemma FilledIsFinal(c: char, v: Value, f: Resolver, g: Resolver)
    requires HoleChar(c) && Clean(c, v) && PlainResults(c, Idents(v), f) && Replace(v, f).Ok?
    ensures Replace(Replace(v, f).value, g) == Replace(v, f)
  {
    ReplacesPlain(c, v, f);
    PlainHasNoHoles(c, Replace(v, f).value);
    NoHolesNoChange(Replace(v, f).value, g);
  }

  /** Without that, it is not: braces around a hole become a hole. */
  lemma NestedHoleReappears(f: Resolver, g: Resolver)
    requires f("x") == Ok(Str("y"))
    ensures Replace(Str("${${x}}"), f) == Ok(Str("${y}")) && Replace(Str("${y}"), g) == g("y")
  {
    NestedHole();
    assert "${" + "y" + "}" == "${y}";
    Holes.HoleTextAtStart("y", "");
    assert Holes.HoleText("y") == "${y}";
  }

  lemma NestedHole()
    ensures Holes.Parse("${${x}}") == Holes.Cut("${", "x", Holes.Tail("}")) && !Holes.IsHole("${${x}}")
  {
    var t := Holes.Cut("${", "x", Holes.Tail("}"));
    assert Holes.Unparse(t) == "${${x}}";
    assert forall i: nat, j: nat :: !Holes.HoleAt("${", i, j);
    assert forall i: nat, j: nat :: !Holes.HoleAt("}", i, j);
    Holes.ParseUnique(t);
    assert Holes.IsBrace("${${x}}"[3]);
  }
}
