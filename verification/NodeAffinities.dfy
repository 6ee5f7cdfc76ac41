/** Node affinity in both directions. */
module NodeAffinities {
  import opened Outcomes
  import opened Text
  import opened Affinity
  import Numerals

  type NodeItem = Item<NodeTerm>

  /** An item without expressions adds nothing. */
  function Texts(items: seq<NodeItem>): Outcome<seq<string>> {
    if items == [] then Ok([])
    else
      var before :- Texts(items[..|items| - 1]);
      var last := items[|items| - 1];
      var exprs :- ExprTexts(last.term.matchExpressions, NodeOpText);
      Ok(if exprs == [] then before else before + [TermText(exprs, last.strength)])
  }

  lemma {:induction false} TextsStuck(items: seq<NodeItem>, prefix: seq<NodeItem>)
    requires prefix <= items && !Texts(prefix).Ok?
    ensures Texts(items) == Texts(prefix)
    decreases |items|
  {
    if prefix != items {
      assert prefix <= items[..|items| - 1];
      TextsStuck(items[..|items| - 1], prefix);
    }
  }

  function NodeItems(na: NodeAffinity): seq<NodeItem> {
    Items(if na.required.Some? then na.required.value else [], na.preferred)
  }

  lemma NoTexts()
    ensures Texts([]) == Ok([]) && Items<NodeTerm>([], []) == []
  {
  }

  lemma TextsSnoc(items: seq<NodeItem>, item: NodeItem)
    ensures Texts(items + [item]) ==
            match (Texts(items), ExprTexts(item.term.matchExpressions, NodeOpText))
            case (Ok(before), Ok(exprs)) => Ok(if exprs == [] then before else before + [TermText(exprs, item.strength)])
            case (Ok(before), failed) => failed.PropagateFailure()
            case (failed, _) => failed
  {
    assert (items + [item])[..|items|] == items;
  }

  method ConvertNodeAffinity(na: Option<NodeAffinity>) returns (r: Outcome<seq<string>>)
    ensures r == if na.None? then Ok([]) else Texts(NodeItems(na.value))
  {
    if na.None? {
      return Ok([]);
    }
    hide ExprTexts, TermText, Texts, Items;
    NoTexts();
    var affinity: seq<string> := [];
    var terms := if na.value.required.Some? then na.value.required.value else [];
    var soft := na.value.preferred;
    for i := 0 to |terms|
      invariant Texts(Items(terms[..i], [])) == Ok(affinity)
    {
      var exprs := ConvertExprs(terms[i].matchExpressions, NodeOpText);
      HardStep(terms, i);
      TextsSnoc(Items(terms[..i], []), Item(Hard, terms[i]));
      if !exprs.Ok? {
        HardPrefix(terms, soft, i + 1);
        TextsStuck(NodeItems(na.value), Items(terms[..i + 1], []));
        return exprs.PropagateFailure();
      }
      if |exprs.value| > 0 {
        affinity := affinity + [TermText(exprs.value, Hard)];
      }
    }
    assert terms[..|terms|] == terms;
    for i := 0 to |soft|
      invariant Texts(Items(terms, soft[..i])) == Ok(affinity)
    {
      var exprs := ConvertExprs(soft[i].term.matchExpressions, NodeOpText);
      SoftStep(terms, soft, i);
      TextsSnoc(Items(terms, soft[..i]), Item(Soft(soft[i].weight), soft[i].term));
      if !exprs.Ok? {
        SoftPrefix(terms, soft, i + 1);
        TextsStuck(NodeItems(na.value), Items(terms, soft[..i + 1]));
        return exprs.PropagateFailure();
      }
      if |exprs.value| > 0 {
        affinity := affinity + [TermText(exprs.value, Soft(soft[i].weight))];
      }
    }
    assert soft[..|soft|] == soft;
    return Ok(affinity);
  }

  // ----- Back -----

  function RevertNodes(texts: seq<string>): Outcome<seq<NodeItem>> {
    if texts == [] then Ok([])
    else
      var before :- RevertNodes(texts[..|texts| - 1]);
      var last :- RevertNode(texts[|texts| - 1]);
      Ok(before + [last])
  }

  lemma {:induction false} RevertStuck(texts: seq<string>, i: nat)
    requires i <= |texts| && !RevertNodes(texts[..i]).Ok?
    ensures RevertNodes(texts) == RevertNodes(texts[..i])
    decreases |texts|
  {
    if i == |texts| {
      assert texts[..i] == texts;
    } else {
      assert texts[..|texts| - 1][..i] == texts[..i];
      RevertStuck(texts[..|texts| - 1], i);
    }
  }

  lemma RevertStep(texts: seq<string>, i: nat)
    requires i < |texts| && RevertNodes(texts[..i]).Ok?
    ensures RevertNodes(texts[..i + 1]) ==
            match RevertNode(texts[i])
            case Ok(item) => Ok(RevertNodes(texts[..i]).value + [item])
            case Fail => Fail
            case Crash => Crash
    ensures RevertNode(texts[i]).Ok? ==>
      var items, item := RevertNodes(texts[..i + 1]).value, RevertNode(texts[i]).value;
      && Hards(items) == Hards(RevertNodes(texts[..i]).value) + (if item.strength.Hard? then [item.term] else [])
      && Softs(items) == Softs(RevertNodes(texts[..i]).value) + if item.strength.Soft? then [Weighted(item.strength.weight, item.term)] else []
  {
    hide RevertNode;
    assert texts[..i + 1][..i] == texts[..i];
    if RevertNode(texts[i]).Ok? {
      var items := RevertNodes(texts[..i + 1]).value;
      assert items[..|items| - 1] == RevertNodes(texts[..i]).value;
    }
  }

  /** Hard and soft terms end up in separate lists, each in the order of the affinities. */
  method SplitAndRevertNodeAffinity(affinities: seq<string>)
    returns (r: Outcome<(seq<NodeTerm>, seq<Weighted<NodeTerm>>)>)
    ensures r == match RevertNodes(affinities)
                 case Ok(items) => Ok((Hards(items), Softs(items)))
                 case Fail => Fail
                 case Crash => Crash
  {
    hide RevertNodes, Hards, Softs, ParseNodeSegments;
    var hard: seq<NodeTerm> := [];
    var soft: seq<Weighted<NodeTerm>> := [];
    NothingReverted(affinities);
    for i := 0 to |affinities|
      invariant RevertNodes(affinities[..i]).Ok?
      invariant hard == Hards(RevertNodes(affinities[..i]).value)
      invariant soft == Softs(RevertNodes(affinities[..i]).value)
    {
      RevertStep(affinities, i);
      var segs := Split(affinities[i], ":");
      var term := ParseNodeExprs(segs[0]);
      if !term.Ok? {
        RevertStuck(affinities, i + 1);
        return term.PropagateFailure();
      }
      if |segs| < 2 {
        hard := hard + [NodeTerm(term.value, [])];
      } else {
        if segs[1] != "soft" {
          RevertStuck(affinities, i + 1);
          return Fail;
        }
        var weight: int32 := 0;
        if |segs| >= 3 {
          var parsed := Numerals.ParseInt(segs[2], 10, 32);
          if parsed.None? {
            RevertStuck(affinities, i + 1);
            return Fail;
          }
          Numerals.ParsedFits(segs[2]);
          weight := parsed.value as int32;
        }
        soft := soft + [Weighted(weight, NodeTerm(term.value, []))];
      }
    }
    assert affinities[..|affinities|] == affinities;
    return Ok((hard, soft));
  }

  lemma NothingReverted(texts: seq<string>)
    ensures RevertNodes(texts[..0]) == Ok([]) && RevertNodes([]) == Ok([]) && Hards<NodeTerm>([]) == [] && Softs<NodeTerm>([]) == []
  {
  }

  /** revertNodeAffinity: no terms at all is no affinity, and no hard terms no node selector. */
  function Collected(items: seq<NodeItem>): Option<NodeAffinity> {
    if items == [] then None
    else Some(NodeAffinity(if Hards(items) == [] then None else Some(Hards(items)), Softs(items)))
  }

  // ----- There and back -----

  /** What survives: terms with expressions, without their field requirements. */
  function Kept(items: seq<NodeItem>): seq<NodeItem> {
    if items == [] then []
    else
      var last := items[|items| - 1];
      var before := Kept(items[..|items| - 1]);
      if last.term.matchExpressions == [] then before else before + [last.(term := last.term.(matchFields := []))]
  }

  predicate WellFormedItems(items: seq<NodeItem>) {
    forall item :: item in items ==> forall r :: r in item.term.matchExpressions ==> WellFormedNodeRequirement(r)
  }

  /** Every operator, value, weight and the order of terms come back exactly; only terms without
      expressions and field requirements are lost. */
  lemma {:induction false} NodesRoundTrip(items: seq<NodeItem>)
    requires WellFormedItems(items)
    ensures Texts(items).Ok? && RevertNodes(Texts(items).value) == Ok(Kept(items))
    ensures "" !in Texts(items).value
  {
    hide WellFormedNodeRequirement, ExprTexts, TermText, RevertNode, Texts, RevertNodes;
    if items == [] {
      NoTexts();
      NothingReverted([]);
    } else {
      var before, last := items[..|items| - 1], items[|items| - 1];
      assert items == before + [last];
      NodesRoundTrip(before);
      LastRoundTrip(last);
      TextsSnoc(before, last);
      var exprs := ExprTexts(last.term.matchExpressions, NodeOpText).value;
      if exprs != [] {
        RevertSnoc(Texts(before).value, TermText(exprs, last.strength));
      }
    }
  }

  lemma RevertSnoc(texts: seq<string>, text: string)
    requires RevertNodes(texts).Ok? && RevertNode(text).Ok?
    ensures RevertNodes(texts + [text]) == Ok(RevertNodes(texts).value + [RevertNode(text).value])
  {
    assert (texts + [text])[..|texts|] == texts;
  }

  lemma LastRoundTrip(item: NodeItem)
    requires forall r :: r in item.term.matchExpressions ==> WellFormedNodeRequirement(r)
    ensures ExprTexts(item.term.matchExpressions, NodeOpText).Ok?
    ensures var exprs := ExprTexts(item.term.matchExpressions, NodeOpText).value;
      && (exprs == [] <==> item.term.matchExpressions == [])
      && (exprs != [] ==> TermText(exprs, item.strength) != "" &&
                          RevertNode(TermText(exprs, item.strength)) == Ok(Item(item.strength, item.term.(matchFields := []))))
  {
    NodeExprsRead(item.term.matchExpressions);
    if item.term.matchExpressions != [] {
      NodeTermRoundTrip(item.term.matchExpressions, item.strength);
    }
  }

  lemma {:induction false} KeptUnchanged(items: seq<NodeItem>)
    ensures |Kept(items)| <= |items|
    ensures Kept(items) == items <==>
      forall item :: item in items ==> item.term.matchExpressions != [] && item.term.matchFields == []
  {
    if items != [] {
      var before, last := items[..|items| - 1], items[|items| - 1];
      KeptUnchanged(before);
      assert items == before + [last];
      assert last in items;
      if Kept(items) == items {
        assert |Kept(before)| == |before|;
        assert Kept(items)[..|items| - 1] == Kept(before);
      }
    }
  }

  /** A node affinity comes back identical exactly when it has a term, its required list (if any) is
      not empty, and no term is empty or names fields. */
  lemma NodeAffinityUnchanged(na: NodeAffinity)
    ensures Collected(Kept(NodeItems(na))) == Some(na) <==>
      && NodeItems(na) != []
      && na.required != Some([])
      && forall item :: item in NodeItems(na) ==> item.term.matchExpressions != [] && item.term.matchFields == []
  {
    var items := NodeItems(na);
    var required := if na.required.Some? then na.required.value else [];
    ItemsSplit(required, na.preferred);
    KeptUnchanged(items);
    if Collected(Kept(items)) == Some(na) {
      assert Hards(Kept(items)) == Hards(items) && Softs(Kept(items)) == Softs(items);
      HardsAndSofts(Kept(items));
      HardsAndSofts(items);
      SameLength(items);
    }
  }

  lemma {:induction false} HardsAndSofts(items: seq<NodeItem>)
    ensures |Hards(items)| + |Softs(items)| == |items|
  {
    if items != [] {
      HardsAndSofts(items[..|items| - 1]);
    }
  }

  lemma KeptLast(before: seq<NodeItem>, last: NodeItem)
    ensures Kept(before + [last]) ==
      if last.term.matchExpressions == [] then Kept(before) else Kept(before) + [last.(term := last.term.(matchFields := []))]
  {
    assert (before + [last])[..|before|] == before;
  }

  /** Nothing dropped and the same terms: nothing changed. */
  lemma {:induction false} SameLength(items: seq<NodeItem>)
    requires |Kept(items)| == |items| && Hards(Kept(items)) == Hards(items) && Softs(Kept(items)) == Softs(items)
    ensures Kept(items) == items
  {
    if items != [] {
      var before, last := items[..|items| - 1], items[|items| - 1];
      assert items == before + [last];
      KeptUnchanged(before);
      KeptLast(before, last);
      hide Kept, Hards, Softs;
      SplitSnoc(before, last);
      var stripped := last.(term := last.term.(matchFields := []));
      SplitSnoc(Kept(before), stripped);
      LastsAgree(Hards(Kept(before)), stripped.term, Hards(before), last.term);
      LastsAgree(Softs(Kept(before)), StrengthOf(stripped), Softs(before), StrengthOf(last));
      SameLength(before);
    }
  }

  function StrengthOf(item: NodeItem): Weighted<NodeTerm> {
    Weighted(if item.strength.Soft? then item.strength.weight else 0, item.term)
  }

  lemma LastsAgree<T>(a: seq<T>, x: T, b: seq<T>, y: T)
    ensures a + [x] == b + [y] ==> a == b && x == y
  {
    if a + [x] == b + [y] {
      assert (a + [x])[..|a|] == a && (b + [y])[..|b|] == b;
      assert (a + [x])[|a|] == x && (b + [y])[|b|] == y;
    }
  }
}
