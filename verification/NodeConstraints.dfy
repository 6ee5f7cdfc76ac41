/** What a pod's node constraints mean before and after the round trip. */
module NodeConstraints {
  import opened Outcomes
  import opened Selectors
  import opened SelectorMeaning
  import opened Affinity
  import opened AffinityRoundTrip
  import Nodes = NodeAffinities

  /** What terms look at: a node's labels, and its fields by name. */
  datatype Node = Node(labels: Labels, fields: Labels)

  /** Any reading of single requirements. */
  type Reading = (Labels, Requirement) -> bool

  /** Single-valued `In` is equality. */
  ghost predicate ReadsEqualities(sat: Reading) {
    forall l: Labels, k, v :: sat(l, Requirement(k, In, [v])) <==> k in l && l[k] == v
  }

  predicate HasLabels(node: Node, wanted: Labels) {
    forall k :: k in wanted ==> k in node.labels && node.labels[k] == wanted[k]
  }

  /** A term without any requirement matches no node. */
  predicate TermMatches(sat: Reading, node: Node, t: NodeTerm) {
    && (t.matchExpressions != [] || t.matchFields != [])
    && (forall r :: r in t.matchExpressions ==> sat(node.labels, r))
    && forall r :: r in t.matchFields ==> sat(node.fields, r)
  }

  predicate AnyMatches(sat: Reading, node: Node, terms: seq<NodeTerm>) {
    exists t :: t in terms && TermMatches(sat, node, t)
  }

  /** The same with field requirements ignored. */
  predicate ExprsMatch(sat: Reading, node: Node, t: NodeTerm) {
    t.matchExpressions != [] && forall r :: r in t.matchExpressions ==> sat(node.labels, r)
  }

  predicate AnyExprsMatch(sat: Reading, node: Node, terms: seq<NodeTerm>) {
    exists t :: t in terms && ExprsMatch(sat, node, t)
  }

  /** The node may run the pod. */
  predicate Admits(sat: Reading, node: Node, nodeSelector: Labels, required: Option<seq<NodeTerm>>) {
    HasLabels(node, nodeSelector) && (required.None? || AnyMatches(sat, node, required.value))
  }

  // ----- The required terms that come back -----

  /** A term as it comes back. */
  function OnlyExprs(t: NodeTerm): NodeTerm {
    t.(matchFields := [])
  }

  lemma {:induction false} KeptTerms(items: seq<Item<NodeTerm>>)
    ensures forall t :: t in Hards(Nodes.Kept(items)) <==>
      exists u :: u in Hards(items) && u.matchExpressions != [] && t == OnlyExprs(u)
  {
    if items != [] {
      var before, last := items[..|items| - 1], items[|items| - 1];
      KeptTerms(before);
      LastKept(before, last);
      assert items == before + [last];
    }
  }

  lemma LastKept(before: seq<Item<NodeTerm>>, last: Item<NodeTerm>)
    ensures var items := before + [last];
      && Hards(items) == (if last.strength.Hard? then Hards(before) + [last.term] else Hards(before))
      && Hards(Nodes.Kept(items)) ==
         if last.strength.Hard? && last.term.matchExpressions != [] then Hards(Nodes.Kept(before)) + [OnlyExprs(last.term)]
         else Hards(Nodes.Kept(before))
  {
    var items := before + [last];
    assert items[..|items| - 1] == before && items[|items| - 1] == last;
    SplitSnoc(before, last);
    if last.term.matchExpressions != [] {
      SplitSnoc(Nodes.Kept(before), last.(term := OnlyExprs(last.term)));
    }
  }

  lemma {:induction false} HardsConcat(a: seq<Item<NodeTerm>>, b: seq<Item<NodeTerm>>)
    ensures Hards(a + b) == Hards(a) + Hards(b)
    decreases |b|
  {
    if b == [] {
      assert a + b == a;
    } else {
      HardsConcat(a, b[..|b| - 1]);
      assert (a + b)[..|a + b| - 1] == a + b[..|b| - 1];
    }
  }

  lemma EqualityRead(sat: Reading, labels: Labels, k: string, v: string)
    requires ReadsEqualities(sat)
    ensures sat(labels, Requirement(k, In, [v])) <==> k in labels && labels[k] == v
  {
  }

  lemma {:induction false} EqualitiesRead(sat: Reading, nodeSelector: Labels, order: seq<string>, labels: Labels)
    requires ReadsEqualities(sat) && forall k :: k in order ==> k in nodeSelector
    ensures (forall r :: r in Equalities(nodeSelector, order) ==> sat(labels, r)) <==>
            (forall k :: k in order ==> k in labels && labels[k] == nodeSelector[k])
    ensures Equalities(nodeSelector, order) == [] <==> order == []
  {
    hide ReadsEqualities;
    if order != [] {
      var before, k := order[..|order| - 1], order[|order| - 1];
      assert order == before + [k];
      EqualitiesRead(sat, nodeSelector, before, labels);
      EqualityRead(sat, labels, k, nodeSelector[k]);
      assert k in order;
      var reqs, r := Equalities(nodeSelector, before), Requirement(k, In, [nodeSelector[k]]);
      assert Equalities(nodeSelector, order) == reqs + [r];
      hide Equalities;
      assert forall x :: x in reqs + [r] <==> x in reqs || x == r;
      assert forall x :: x in order <==> x in before || x == k;
    }
  }

  function RequiredOf(na: Option<NodeAffinity>): seq<NodeTerm> {
    if na.Some? && na.value.required.Some? then na.value.required.value else []
  }

  /** The required terms after the round trip. */
  function Back(nodeSelector: Labels, order: seq<string>, na: Option<NodeAffinity>): seq<NodeTerm>
    requires forall k :: k in order ==> k in nodeSelector
  {
    Hards(Nodes.Kept(WithSelector(nodeSelector, order, na)))
  }

  /** The node selector's term, and the others without their fields, unless nothing is left of them. */
  lemma HardsBack(nodeSelector: Labels, order: seq<string>, na: Option<NodeAffinity>)
    requires forall k :: k in order ==> k in nodeSelector
    ensures var term := NodeTerm(Equalities(nodeSelector, order), []);
      forall t :: t in Back(nodeSelector, order, na) <==>
        || (order != [] && t == term)
        || exists u :: u in RequiredOf(na) && u.matchExpressions != [] && t == OnlyExprs(u)
  {
    var head := if order == [] then [] else [Item(Hard, NodeTerm(Equalities(nodeSelector, order), []))];
    var rest := if na.None? then [] else Nodes.NodeItems(na.value);
    var items := WithSelector(nodeSelector, order, na);
    assert items == head + rest;
    HeadHards(nodeSelector, order);
    if na.Some? {
      ItemsSplit(RequiredOf(na), na.value.preferred);
    }
    EqualitiesNotEmpty(nodeSelector, order);
    hide Equalities, Nodes.NodeItems, Nodes.Kept, Hards, WithSelector;
    KeptTerms(items);
    HardsConcat(head, rest);
  }

  lemma EqualitiesNotEmpty(nodeSelector: Labels, order: seq<string>)
    requires forall k :: k in order ==> k in nodeSelector
    ensures Equalities(nodeSelector, order) == [] <==> order == []
  {
  }

  lemma HeadHards(nodeSelector: Labels, order: seq<string>)
    requires forall k :: k in order ==> k in nodeSelector
    ensures var t := NodeTerm(Equalities(nodeSelector, order), []);
      Hards([Item(Hard, t)]) == [t] && Hards<NodeTerm>([]) == []
  {
    var t := NodeTerm(Equalities(nodeSelector, order), []);
    assert [Item(Hard, t)][..0] == [];
  }

  /** The required terms that come back match the nodes of the node selector, and those of the terms
      that had expressions, whatever their fields were. */
  lemma BackMatches(sat: Reading, nodeSelector: Labels, order: seq<string>, na: Option<NodeAffinity>, node: Node)
    requires Enumerates(order, nodeSelector.Keys)
    requires ReadsEqualities(sat)
    ensures AnyMatches(sat, node, Back(nodeSelector, order, na)) <==>
      (nodeSelector != map[] && HasLabels(node, nodeSelector)) || AnyExprsMatch(sat, node, RequiredOf(na))
    ensures Back(nodeSelector, order, na) == [] <==>
      nodeSelector == map[] && forall t :: t in RequiredOf(na) ==> t.matchExpressions == []
  {
    var term := NodeTerm(Equalities(nodeSelector, order), []);
    HardsBack(nodeSelector, order, na);
    OrderKnows(nodeSelector, order, node);
    EqualitiesRead(sat, nodeSelector, order, node.labels);
    assert TermMatches(sat, node, term) <==> order != [] && HasLabels(node, nodeSelector);
    hide Equalities, Back, Enumerates, HasLabels, ReadsEqualities, AnyMatches, AnyExprsMatch, RequiredOf, TermMatches;
    Matching(sat, node, Back(nodeSelector, order, na), RequiredOf(na), term, order != []);
  }

  lemma OrderKnows(nodeSelector: Labels, order: seq<string>, node: Node)
    requires Enumerates(order, nodeSelector.Keys)
    ensures order == [] <==> nodeSelector == map[]
    ensures HasLabels(node, nodeSelector) <==> forall k :: k in order ==> k in node.labels && node.labels[k] == nodeSelector[k]
  {
    assert forall k :: k in nodeSelector ==> k in order;
    assert order != [] ==> order[0] in nodeSelector;
  }

  lemma Matching(sat: Reading, node: Node, hards: seq<NodeTerm>, required: seq<NodeTerm>, term: NodeTerm, present: bool)
    requires forall t :: t in hards <==>
      (present && t == term) || exists u :: u in required && u.matchExpressions != [] && t == OnlyExprs(u)
    ensures AnyMatches(sat, node, hards) <==> AnyExprsMatch(sat, node, required) || (present && TermMatches(sat, node, term))
    ensures hards == [] <==> !present && forall t :: t in required ==> t.matchExpressions == []
  {
    forall u | u in required && u.matchExpressions != []
      ensures OnlyExprs(u) in hards
      ensures TermMatches(sat, node, OnlyExprs(u)) <==> ExprsMatch(sat, node, u)
    {
    }
    if present {
      assert term in hards;
    }
    assert hards != [] ==> hards[0] in hards;
  }

  /** Which nodes a pod may run on is the same after the round trip exactly when: there is no required
      node affinity; or no node selector, and dropping field requirements and empty terms changes
      nothing; or every node of the node selector matches a term and every node of a term's
      expressions has the selector's labels, because the node selector comes back as an
      alternative to the terms where it was a condition besides them. */
  lemma NodeConstraintKept(sat: Reading, nodeSelector: Labels, order: seq<string>, na: Option<NodeAffinity>)
    requires Enumerates(order, nodeSelector.Keys)
    requires ReadsEqualities(sat)
    ensures var required := if na.Some? then na.value.required else None;
      (forall node :: Admits(sat, node, nodeSelector, required) <==> Admits(sat, node, map[], RequiredBack(nodeSelector, order, na))) <==>
      (|| required.None?
       || (nodeSelector == map[] && (exists t :: t in required.value && t.matchExpressions != []) &&
           forall node :: AnyMatches(sat, node, required.value) <==> AnyExprsMatch(sat, node, required.value))
       || (nodeSelector == map[] && (forall t :: t in required.value ==> t.matchExpressions == []) &&
           forall node :: AnyMatches(sat, node, required.value))
       || (nodeSelector != map[] &&
           forall node :: (HasLabels(node, nodeSelector) ==> AnyMatches(sat, node, required.value)) &&
                          (AnyExprsMatch(sat, node, required.value) ==> HasLabels(node, nodeSelector))))
  {
    var required := if na.Some? then na.value.required else None;
    assert required.Some? ==> RequiredOf(na) == required.value;
    assert required.None? ==> RequiredOf(na) == [];
    hide Back, HasLabels, AnyMatches, AnyExprsMatch, RequiredOf, Enumerates, ReadsEqualities;
    forall node
      ensures HasLabels(node, map[])
      ensures AnyMatches(sat, node, Back(nodeSelector, order, na)) <==>
        (nodeSelector != map[] && HasLabels(node, nodeSelector)) || (required.Some? && AnyExprsMatch(sat, node, required.value))
    {
      NoLabelsWanted(node);
      NothingMatches(sat, node);
      BackMatches(sat, nodeSelector, order, na, node);
    }
    BackMatches(sat, nodeSelector, order, na, Node(map[], map[]));
    BackRequired(nodeSelector, order, na);
    var after := RequiredBack(nodeSelector, order, na);
    forall node
      ensures Admits(sat, node, nodeSelector, required) <==>
        HasLabels(node, nodeSelector) && (required.None? || AnyMatches(sat, node, required.value))
      ensures Admits(sat, node, map[], after) <==>
        || (nodeSelector != map[] && HasLabels(node, nodeSelector))
        || (required.Some? && AnyExprsMatch(sat, node, required.value))
        || (nodeSelector == map[] && (required.None? || forall t :: t in required.value ==> t.matchExpressions == []))
    {
    }
    hide Admits;
    if required.Some? {
      if nodeSelector != map[] {
        assert forall node ::
          (Admits(sat, node, nodeSelector, required) <==> Admits(sat, node, map[], after)) <==>
          (HasLabels(node, nodeSelector) ==> AnyMatches(sat, node, required.value)) &&
          (AnyExprsMatch(sat, node, required.value) ==> HasLabels(node, nodeSelector));
      } else if forall t :: t in required.value ==> t.matchExpressions == [] {
        assert forall node ::
          (Admits(sat, node, nodeSelector, required) <==> Admits(sat, node, map[], after)) <==> AnyMatches(sat, node, required.value);
      } else {
        assert forall node ::
          (Admits(sat, node, nodeSelector, required) <==> Admits(sat, node, map[], after)) <==>
          (AnyMatches(sat, node, required.value) <==> AnyExprsMatch(sat, node, required.value));
      }
    }
  }

  function RequiredBack(nodeSelector: Labels, order: seq<string>, na: Option<NodeAffinity>): Option<seq<NodeTerm>>
    requires forall k :: k in order ==> k in nodeSelector
  {
    var back := Nodes.Collected(Nodes.Kept(WithSelector(nodeSelector, order, na)));
    if back.Some? then back.value.required else None
  }

  lemma BackRequired(nodeSelector: Labels, order: seq<string>, na: Option<NodeAffinity>)
    requires forall k :: k in order ==> k in nodeSelector
    ensures RequiredBack(nodeSelector, order, na) ==
            if Back(nodeSelector, order, na) == [] then None else Some(Back(nodeSelector, order, na))
  {
    hide Nodes.Kept, WithSelector;
    assert Hards<NodeTerm>([]) == [];
  }

  lemma NoLabelsWanted(node: Node)
    ensures HasLabels(node, map[])
  {
  }

  lemma NothingMatches(sat: Reading, node: Node)
    ensures !AnyMatches(sat, node, []) && !AnyExprsMatch(sat, node, [])
  {
  }

  /** Where no term names fields: no required node affinity, or no node selector and a term that is not
      empty, or node selector and terms matching the same nodes. */
  lemma WithoutFields(sat: Reading, nodeSelector: Labels, order: seq<string>, na: Option<NodeAffinity>)
    requires Enumerates(order, nodeSelector.Keys)
    requires ReadsEqualities(sat)
    requires forall t :: t in RequiredOf(na) ==> t.matchFields == []
    ensures var required := if na.Some? then na.value.required else None;
      (forall node :: Admits(sat, node, nodeSelector, required) <==> Admits(sat, node, map[], RequiredBack(nodeSelector, order, na))) <==>
      (|| required.None?
       || (nodeSelector == map[] && exists t :: t in required.value && t.matchExpressions != [])
       || (nodeSelector != map[] && forall node :: HasLabels(node, nodeSelector) <==> AnyMatches(sat, node, required.value)))
  {
    NodeConstraintKept(sat, nodeSelector, order, na);
    forall node
      ensures AnyMatches(sat, node, RequiredOf(na)) <==> AnyExprsMatch(sat, node, RequiredOf(na))
    {
      FieldFree(sat, node, RequiredOf(na));
    }
    if forall t :: t in RequiredOf(na) ==> t.matchExpressions == [] {
      assert !AnyExprsMatch(sat, Node(map[], map[]), RequiredOf(na));
    }
  }

  lemma FieldFree(sat: Reading, node: Node, terms: seq<NodeTerm>)
    requires forall t :: t in terms ==> t.matchFields == []
    ensures AnyMatches(sat, node, terms) <==> AnyExprsMatch(sat, node, terms)
  {
    assert forall t :: t in terms ==> (TermMatches(sat, node, t) <==> ExprsMatch(sat, node, t));
  }

  // ----- It does go wrong -----

  /** Requirements on labels, as Kubernetes reads them. */
  const PLAIN_READING: Reading := (labels, r) => Satisfies(labels, r)

  lemma PlainReadsEqualities()
    ensures ReadsEqualities(PLAIN_READING)
  {
  }

  /** disk=ssd and zone in (a) come back as disk=ssd or zone in (a): a node of disk=ssd anywhere will do. */
  lemma SelectorBecomesAlternative()
    ensures var nodeSelector, term := map["disk" := "ssd"], NodeTerm([Requirement("zone", In, ["a"])], []);
      var na, node := NodeAffinity(Some([term]), []), Node(map["disk" := "ssd"], map[]);
      && Enumerates(["disk"], nodeSelector.Keys)
      && !Admits(PLAIN_READING, node, nodeSelector, na.required)
      && Admits(PLAIN_READING, node, map[], RequiredBack(nodeSelector, ["disk"], Some(na)))
  {
    var nodeSelector, term := map["disk" := "ssd"], NodeTerm([Requirement("zone", In, ["a"])], []);
    var na, node := NodeAffinity(Some([term]), []), Node(map["disk" := "ssd"], map[]);
    PlainReadsEqualities();
    BackMatches(PLAIN_READING, nodeSelector, ["disk"], Some(na), node);
    BackRequired(nodeSelector, ["disk"], Some(na));
    assert !TermMatches(PLAIN_READING, node, term) by {
      assert term.matchExpressions[0] == Requirement("zone", In, ["a"]);
      assert "zone"[0] != "disk"[0];
      assert "zone" !in node.labels;
    }
  }

  /** A required list of one empty term matches no node, and comes back as no requirement. */
  lemma EmptyTermBecomesAny(node: Node)
    ensures var na := NodeAffinity(Some([NodeTerm([], [])]), []);
      && !Admits(PLAIN_READING, node, map[], na.required)
      && Admits(PLAIN_READING, node, map[], RequiredBack(map[], [], Some(na)))
  {
    var na := NodeAffinity(Some([NodeTerm([], [])]), []);
    PlainReadsEqualities();
    assert RequiredOf(Some(na)) == [NodeTerm([], [])];
    BackMatches(PLAIN_READING, map[], [], Some(na), node);
    BackRequired(map[], [], Some(na));
  }
}
