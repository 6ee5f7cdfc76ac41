/** What filling a template does to each kind of value, told by the text of the template alone. */
module TemplateLaws {
  import opened Outcomes
  import opened Values
  import opened Templates
  import opened Relapse
  import Holes

  /** A string that is one hole becomes the value itself, whatever its kind. */
  lemma HoleBecomesValue(id: string, f: Resolver)
    requires Holes.BraceFree(id)
    ensures Replace(Str(Holes.HoleText(id)), f) == f(id)
  {
    Holes.HoleTextAtStart(id, "");
  }

  /** A hole within text is replaced by the string or by the number's digits. */
  lemma TextAroundHole(text: string, id: string, rest: string, f: Resolver, v: Value, shown: string)
    requires Holes.BraceFree(id) && Holes.HoleFree(text) && Holes.HoleFree(rest) && text + rest != ""
    requires f(id) == Ok(v) && (v == Str(shown) || v == Num(shown))
    ensures Replace(Str(text + Holes.HoleText(id) + rest), f) == Ok(Str(text + shown + rest))
  {
    var t := Holes.Cut(text, id, Holes.Tail(rest));
    Written(t);
    assert Fill(t.rest, f) == Ok(rest);
  }

  /** Nothing else can stand within text. */
  lemma TextRejects(text: string, id: string, rest: string, f: Resolver)
    requires Holes.BraceFree(id) && Holes.HoleFree(text) && Holes.HoleFree(rest) && text + rest != ""
    requires f(id).Ok? && !f(id).value.Str? && !f(id).value.Num?
    ensures Replace(Str(text + Holes.HoleText(id) + rest), f) == Fail
  {
    var t := Holes.Cut(text, id, Holes.Tail(rest));
    Written(t);
    assert Fill(t.rest, f) == Ok(rest);
  }

  /** However many holes: text, what fills the first one, and the rest in the same way. */
  lemma HoleByHole(text: string, id: string, rest: Holes.Template, f: Resolver, v: Value, shown: string, more: string)
    requires f(id) == Ok(v) && (v == Str(shown) || v == Num(shown)) && Fill(rest, f) == Ok(more)
    ensures Fill(Holes.Cut(text, id, rest), f) == Ok(text + shown + more)
  {
  }

  /** A string of one hole is not filled but replaced; any other is filled as it is cut. */
  lemma Written(t: Holes.Template)
    requires Holes.Normal(t) && t.Cut? && !(t.text == "" && t.rest == Holes.Tail(""))
    ensures var s := Holes.Unparse(t); Holes.Parse(s) == t && !Holes.IsHole(s)
    ensures forall f, filled :: Fill(t, f) == Ok(filled) ==> Replace(Str(Holes.Unparse(t)), f) == Ok(Str(filled))
  {
    Holes.ParseUnique(t);
    if Holes.IsHole(Holes.Unparse(t)) {
      HoleParses(Holes.Unparse(t));
    }
  }

  /** Text without holes stays, and so does whatever is no text. */
  lemma ScalarsStay(v: Value, f: Resolver)
    requires !v.List? && !v.Map? && (v.Str? ==> Holes.HoleFree(v.s))
    ensures Replace(v, f) == Ok(v)
  {
    if v.Str? {
      Holes.ParseUnique(Holes.Tail(v.s));
    }
  }

  /** A map keeps its keys, and each entry is replaced. */
  lemma MapByEntry(entries: Dict, f: Resolver, r: Value)
    requires Replace(Map(entries), f) == Ok(r)
    ensures r.Map? && r.entries.Keys == entries.Keys
    ensures forall k :: k in entries ==> Replace(entries[k], f) == Ok(r.entries[k])
  {
  }

  // ----- Lists -----

  /** `${id...}` stands for the items of a list, in place. */
  lemma SpreadSplices(pre: seq<Value>, id: string, post: seq<Value>, f: Resolver, a: seq<Value>, b: seq<Value>)
    requires Holes.BraceFree(id) && ReplaceItems(pre, f) == Ok(a) && ReplaceItems(post, f) == Ok(b)
    ensures var r := ReplaceItems(pre + [Str(Holes.HoleText(id + "..."))] + post, f);
      match f(id)
      case Ok(List(ys)) => r == Ok(a + ys + b)
      case Ok(_) => r == Fail
      case Fail => r == Fail
      case Crash => r == Crash
  {
    var v := Str(Holes.HoleText(id + "..."));
    IsSpreadHole(id);
    InPlace(pre, v, post, f);
  }

  /** Any other item stands for one value, what it is replaced by. */
  lemma ItemStays(pre: seq<Value>, v: Value, post: seq<Value>, f: Resolver, a: seq<Value>, b: seq<Value>)
    requires forall id :: Holes.BraceFree(id) ==> v != Str(Holes.HoleText(id + "..."))
    requires ReplaceItems(pre, f) == Ok(a) && ReplaceItems(post, f) == Ok(b)
    ensures var r := ReplaceItems(pre + [v] + post, f);
      match Replace(v, f)
      case Ok(w) => r == Ok(a + [w] + b)
      case Fail => r == Fail
      case Crash => r == Crash
  {
    NoSpread(v);
    InPlace(pre, v, post, f);
  }

  lemma NoSpread(v: Value)
    ensures v.Str? && Holes.IsSpread(v.s) ==> exists id :: Holes.BraceFree(id) && v == Str(Holes.HoleText(id + "..."))
  {
    if v.Str? && Holes.IsSpread(v.s) {
      var id := Holes.SpreadIdent(v.s);
      assert Holes.BraceFree(id);
    }
  }

  lemma InPlace(pre: seq<Value>, v: Value, post: seq<Value>, f: Resolver)
    requires ReplaceItems(pre, f).Ok? && ReplaceItems(post, f).Ok?
    ensures ReplaceItems(pre + [v] + post, f) ==
            match ReplaceItem(v, f)
            case Ok(w) => Ok(ReplaceItems(pre, f).value + w + ReplaceItems(post, f).value)
            case o => o
  {
    ReplaceItemsConcat(pre + [v], post, f);
    ReplaceItemsConcat(pre, [v], f);
    assert ReplaceItem(v, f).Ok? ==> ReplaceItem(v, f).value + [] == ReplaceItem(v, f).value;
  }

  lemma IsSpreadHole(id: string)
    requires Holes.BraceFree(id)
    ensures var s := Holes.HoleText(id + "..."); Holes.IsSpread(s) && Holes.SpreadIdent(s) == id
  {
    var s := Holes.HoleText(id + "...");
    assert Holes.BraceFree(id + "...");
    Holes.HoleTextAtStart(id + "...", "");
    assert s[2..|s| - 1] == id + "...";
    assert s[|s| - 4..|s| - 1] == (id + "...")[|id|..] == "...";
    assert s[2..|s| - 4] == id;
  }

  /** A map of one entry. */
  lemma OneEntry(key: string, v: Value, f: Resolver)
    ensures EntriesIdents(map[key := v]) == Idents(v)
    ensures Replace(v, f).Ok? ==> ReplaceEntries(map[key := v], f) == Ok(map[key := Replace(v, f).value])
    ensures Replace(v, f).Fail? ==> ReplaceEntries(map[key := v], f) == Fail
  {
    var entries: Dict := map[key := v];
    assert key in entries && entries[key] == v && forall k :: k in entries ==> k == key;
    if Replace(v, f).Ok? {
      assert ReplaceEntries(entries, f).value == map[key := Replace(v, f).value];
    }
  }
}
