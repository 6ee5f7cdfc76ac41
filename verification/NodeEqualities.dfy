/** Node constraints made of equalities alone: a check on the terms that says whether the nodes a pod
    may run on stay the same. */
module NodeEqualities {
  import opened Outcomes
  import opened Selectors
  import opened SelectorRoundTrips
  import opened Affinity
  import opened NodeConstraints

  /** Every requirement is an equality, on labels and on fields. */
  predicate OnlyEqual(terms: seq<NodeTerm>) {
    forall t :: t in terms ==> AllEqual(t.matchExpressions) && AllEqual(t.matchFields)
  }

  predicate AllEqual(reqs: seq<Requirement>) {
    forall r :: r in reqs ==> IsEquality(r)
  }

  /** Some labels meet all the equalities: no two ask for different values of one key. */
  predicate Meetable(reqs: seq<Requirement>) {
    forall r, q :: r in reqs && q in reqs && r.key == q.key ==> r == q
  }

  /** The labels meet all the equalities. */
  predicate Meets(labels: Labels, reqs: seq<Requirement>)
    requires AllEqual(reqs)
  {
    forall r :: r in reqs ==> r.key in labels && labels[r.key] == r.values[0]
  }

  /** The equalities ask for all the labels. */
  predicate Asks(reqs: seq<Requirement>, labels: Labels) {
    forall k :: k in labels ==> Requirement(k, In, [labels[k]]) in reqs
  }

  /** With a node selector: one term asks for no more than it, and every term for no less. */
  predicate SelectorKept(nodeSelector: Labels, terms: seq<NodeTerm>)
    requires OnlyEqual(terms)
  {
    && (exists t :: t in terms && t.matchExpressions != [] && t.matchFields == [] && Meets(nodeSelector, t.matchExpressions))
    && forall t :: t in terms && t.matchExpressions != [] && Meetable(t.matchExpressions) ==> Asks(t.matchExpressions, nodeSelector)
  }

  /** Without one: no term asks for fields alone, and one that asks for fields besides labels is
      made up for by one that asks for no more labels, and for no fields. */
  predicate TermsKept(terms: seq<NodeTerm>) {
    && (exists t :: t in terms && t.matchExpressions != [])
    && (forall t :: t in terms && t.matchExpressions == [] && t.matchFields != [] ==> !Meetable(t.matchFields))
    && forall t :: t in terms && t.matchExpressions != [] && Meetable(t.matchExpressions) ==> MadeUpFor(terms, t)
  }

  predicate MadeUpFor(terms: seq<NodeTerm>, t: NodeTerm) {
    exists u :: u in terms && u.matchExpressions != [] && u.matchFields == [] && Among(u.matchExpressions, t.matchExpressions)
  }

  predicate Among(some: seq<Requirement>, reqs: seq<Requirement>) {
    forall r :: r in some ==> r in reqs
  }

  // ----- The least labels that meet equalities -----

  function Least(reqs: seq<Requirement>): (labels: Labels)
    requires AllEqual(reqs)
    ensures Asks(reqs, labels) && forall r :: r in reqs ==> r.key in labels
  {
    if reqs == [] then map[]
    else
      var last := reqs[|reqs| - 1];
      assert last in reqs && IsEquality(last);
      assert last == Requirement(last.key, In, [last.values[0]]);
      Least(reqs[..|reqs| - 1])[last.key := last.values[0]]
  }

  lemma LeastMeets(reqs: seq<Requirement>)
    requires AllEqual(reqs)
    ensures Meets(Least(reqs), reqs) <==> Meetable(reqs)
  {
    var labels := Least(reqs);
    forall r | r in reqs
      ensures Requirement(r.key, In, [labels[r.key]]) in reqs && r == Requirement(r.key, In, [r.values[0]])
    {
    }
  }

  lemma MeetsOnlyMeetable(labels: Labels, reqs: seq<Requirement>)
    requires AllEqual(reqs) && Meets(labels, reqs)
    ensures Meetable(reqs)
  {
    forall r, q | r in reqs && q in reqs && r.key == q.key
      ensures r == q
    {
      assert r == Requirement(r.key, In, [r.values[0]]) && q == Requirement(q.key, In, [q.values[0]]);
    }
  }

  lemma AsksLess(some: seq<Requirement>, reqs: seq<Requirement>)
    requires AllEqual(some) && AllEqual(reqs)
    ensures Meets(Least(reqs), some) ==> Among(some, reqs)
  {
    if Meets(Least(reqs), some) {
      forall r | r in some
        ensures r in reqs
      {
        assert r == Requirement(r.key, In, [r.values[0]]);
      }
    }
  }

  // ----- Terms of equalities -----

  lemma ReadsMeets(sat: Reading, labels: Labels, reqs: seq<Requirement>)
    requires ReadsEqualities(sat) && AllEqual(reqs)
    ensures (forall r :: r in reqs ==> sat(labels, r)) <==> Meets(labels, reqs)
  {
    forall r | r in reqs
      ensures sat(labels, r) <==> r.key in labels && labels[r.key] == r.values[0]
    {
      assert r == Requirement(r.key, In, [r.values[0]]);
      EqualityRead(sat, labels, r.key, r.values[0]);
    }
  }

  lemma TermReads(sat: Reading, node: Node, t: NodeTerm)
    requires ReadsEqualities(sat) && AllEqual(t.matchExpressions) && AllEqual(t.matchFields)
    ensures TermMatches(sat, node, t) <==>
      (t.matchExpressions != [] || t.matchFields != []) && Meets(node.labels, t.matchExpressions) && Meets(node.fields, t.matchFields)
    ensures ExprsMatch(sat, node, t) <==> t.matchExpressions != [] && Meets(node.labels, t.matchExpressions)
  {
    ReadsMeets(sat, node.labels, t.matchExpressions);
    ReadsMeets(sat, node.fields, t.matchFields);
  }

  lemma NoFields(fields: seq<Requirement>)
    requires AllEqual(fields)
    ensures Meets(map[], fields) <==> fields == []
  {
    assert fields != [] ==> fields[0] in fields;
  }

  /** Every node with the selector's labels matches a term. */
  lemma SelectorMatches(sat: Reading, nodeSelector: Labels, terms: seq<NodeTerm>)
    requires ReadsEqualities(sat) && OnlyEqual(terms)
    ensures (forall node :: HasLabels(node, nodeSelector) ==> AnyMatches(sat, node, terms)) <==>
      exists t :: t in terms && (t.matchExpressions != [] && t.matchFields == []) && Meets(nodeSelector, t.matchExpressions)
  {
    var least := Node(nodeSelector, map[]);
    forall t | t in terms
      ensures TermMatches(sat, least, t) <==>
        t.matchExpressions != [] && t.matchFields == [] && Meets(nodeSelector, t.matchExpressions)
    {
      TermReads(sat, least, t);
      NoFields(t.matchFields);
    }
    assert HasLabels(least, nodeSelector);
    forall node, t | HasLabels(node, nodeSelector) && t in terms && TermMatches(sat, least, t)
      ensures TermMatches(sat, node, t)
    {
      TermReads(sat, node, t);
    }
  }

  /** Every node that matches the expressions of a term has the selector's labels. */
  lemma TermsSelect(sat: Reading, nodeSelector: Labels, terms: seq<NodeTerm>)
    requires ReadsEqualities(sat) && OnlyEqual(terms)
    ensures (forall node :: AnyExprsMatch(sat, node, terms) ==> HasLabels(node, nodeSelector)) <==>
      forall t :: t in terms && t.matchExpressions != [] && Meetable(t.matchExpressions) ==> Asks(t.matchExpressions, nodeSelector)
  {
    hide Asks, Meetable, HasLabels, Least, ReadsEqualities;
    forall t | t in terms && t.matchExpressions != []
      ensures Meetable(t.matchExpressions) && Asks(t.matchExpressions, nodeSelector) ==>
        forall node :: ExprsMatch(sat, node, t) ==> HasLabels(node, nodeSelector)
      ensures Meetable(t.matchExpressions) ==>
        ExprsMatch(sat, Node(Least(t.matchExpressions), map[]), t)
      ensures HasLabels(Node(Least(t.matchExpressions), map[]), nodeSelector) ==> Asks(t.matchExpressions, nodeSelector)
      ensures !Meetable(t.matchExpressions) ==> forall node :: !ExprsMatch(sat, node, t)
    {
      TermSelects(sat, nodeSelector, t);
    }
  }

  lemma TermSelects(sat: Reading, nodeSelector: Labels, t: NodeTerm)
    requires ReadsEqualities(sat) && AllEqual(t.matchExpressions) && AllEqual(t.matchFields) && t.matchExpressions != []
    ensures Asks(t.matchExpressions, nodeSelector) ==> forall node :: ExprsMatch(sat, node, t) ==> HasLabels(node, nodeSelector)
    ensures Meetable(t.matchExpressions) ==> ExprsMatch(sat, Node(Least(t.matchExpressions), map[]), t)
    ensures HasLabels(Node(Least(t.matchExpressions), map[]), nodeSelector) ==> Asks(t.matchExpressions, nodeSelector)
    ensures !Meetable(t.matchExpressions) ==> forall node :: !ExprsMatch(sat, node, t)
  {
    var reqs := t.matchExpressions;
    var least := Node(Least(reqs), map[]);
    TermReads(sat, least, t);
    LeastMeets(reqs);
    forall node | ExprsMatch(sat, node, t)
      ensures Meetable(reqs) && (Asks(reqs, nodeSelector) ==> HasLabels(node, nodeSelector))
    {
      TermReads(sat, node, t);
      MeetsOnlyMeetable(node.labels, reqs);
    }
  }

  /** Ignoring fields changes nothing. */
  lemma FieldsIdle(sat: Reading, terms: seq<NodeTerm>)
    requires ReadsEqualities(sat) && OnlyEqual(terms)
    ensures (forall node :: AnyMatches(sat, node, terms) <==> AnyExprsMatch(sat, node, terms)) <==>
      && (forall t :: t in terms && t.matchExpressions == [] && t.matchFields != [] ==> !Meetable(t.matchFields))
      && forall t :: t in terms && t.matchExpressions != [] && Meetable(t.matchExpressions) ==> MadeUpFor(terms, t)
  {
    forall node
      ensures (forall t :: t in terms && t.matchExpressions == [] && t.matchFields != [] ==> !Meetable(t.matchFields)) ==>
        (AnyMatches(sat, node, terms) ==> AnyExprsMatch(sat, node, terms))
      ensures (forall t :: t in terms && t.matchExpressions != [] && Meetable(t.matchExpressions) ==> MadeUpFor(terms, t)) ==>
        (AnyExprsMatch(sat, node, terms) ==> AnyMatches(sat, node, terms))
    {
      hide Meetable;
      forall t | t in terms
        ensures TermMatches(sat, node, t) ==> ExprsMatch(sat, node, t) || (t.matchExpressions == [] && t.matchFields != [] && Meetable(t.matchFields))
        ensures ExprsMatch(sat, node, t) && MadeUpFor(terms, t) ==> AnyMatches(sat, node, terms)
        ensures ExprsMatch(sat, node, t) ==> Meetable(t.matchExpressions)
      {
        TermApart(sat, node, terms, t);
      }
    }
    forall t | t in terms
      ensures t.matchExpressions == [] && t.matchFields != [] && Meetable(t.matchFields) ==>
        exists node :: AnyMatches(sat, node, terms) && !AnyExprsMatch(sat, node, terms)
      ensures t.matchExpressions != [] && Meetable(t.matchExpressions) && !MadeUpFor(terms, t) ==>
        exists node :: AnyExprsMatch(sat, node, terms) && !AnyMatches(sat, node, terms)
    {
      FieldsCount(sat, terms, t);
    }
  }

  lemma TermApart(sat: Reading, node: Node, terms: seq<NodeTerm>, t: NodeTerm)
    requires ReadsEqualities(sat) && OnlyEqual(terms) && t in terms
    ensures TermMatches(sat, node, t) ==> ExprsMatch(sat, node, t) || (t.matchExpressions == [] && t.matchFields != [] && Meetable(t.matchFields))
    ensures ExprsMatch(sat, node, t) && MadeUpFor(terms, t) ==> AnyMatches(sat, node, terms)
    ensures ExprsMatch(sat, node, t) ==> Meetable(t.matchExpressions)
  {
    TermReads(sat, node, t);
    if TermMatches(sat, node, t) {
      MeetsOnlyMeetable(node.fields, t.matchFields);
    }
    if ExprsMatch(sat, node, t) {
      MeetsOnlyMeetable(node.labels, t.matchExpressions);
      if MadeUpFor(terms, t) {
        var u :| u in terms && u.matchExpressions != [] && u.matchFields == [] && Among(u.matchExpressions, t.matchExpressions);
        TermReads(sat, node, u);
      }
    }
  }

  /** The nodes that show it where fields do count. */
  lemma FieldsCount(sat: Reading, terms: seq<NodeTerm>, t: NodeTerm)
    requires ReadsEqualities(sat) && OnlyEqual(terms) && t in terms
    ensures t.matchExpressions == [] && t.matchFields != [] && Meetable(t.matchFields) ==>
      var node := Node(map[], Least(t.matchFields)); AnyMatches(sat, node, terms) && !AnyExprsMatch(sat, node, terms)
    ensures t.matchExpressions != [] && Meetable(t.matchExpressions) && !MadeUpFor(terms, t) ==>
      var node := Node(Least(t.matchExpressions), map[]); AnyExprsMatch(sat, node, terms) && !AnyMatches(sat, node, terms)
  {
    var bare, least := Node(map[], Least(t.matchFields)), Node(Least(t.matchExpressions), map[]);
    LeastMeets(t.matchFields);
    LeastMeets(t.matchExpressions);
    TermReads(sat, bare, t);
    TermReads(sat, least, t);
    forall u | u in terms
      ensures !ExprsMatch(sat, bare, u)
      ensures TermMatches(sat, least, u) ==> u.matchExpressions != [] && u.matchFields == [] && Among(u.matchExpressions, t.matchExpressions)
    {
      TermReads(sat, bare, u);
      TermReads(sat, least, u);
      NoFields(u.matchExpressions);
      NoFields(u.matchFields);
      AsksLess(u.matchExpressions, t.matchExpressions);
    }
  }

  /** Where selector and terms are equalities, the nodes a pod may run on stay the same exactly if a check
      of selector and terms says so. */
  lemma EqualitiesKept(sat: Reading, nodeSelector: Labels, order: seq<string>, na: Option<NodeAffinity>)
    requires Enumerates(order, nodeSelector.Keys)
    requires ReadsEqualities(sat) && OnlyEqual(RequiredOf(na))
    ensures var required := if na.Some? then na.value.required else None;
      (forall node :: Admits(sat, node, nodeSelector, required) <==> Admits(sat, node, map[], RequiredBack(nodeSelector, order, na))) <==>
      required.None? || (if nodeSelector != map[] then SelectorKept(nodeSelector, required.value) else TermsKept(required.value))
  {
    var terms := RequiredOf(na);
    NodeConstraintKept(sat, nodeSelector, order, na);
    SelectorMatches(sat, nodeSelector, terms);
    TermsSelect(sat, nodeSelector, terms);
    FieldsIdle(sat, terms);
    NoExpressions(sat, terms);
    hide Admits, RequiredBack, AnyMatches, AnyExprsMatch, HasLabels, OnlyEqual, ReadsEqualities;
  }

  /** A node without labels and fields matches no term that has no expressions. */
  lemma NoExpressions(sat: Reading, terms: seq<NodeTerm>)
    requires ReadsEqualities(sat) && OnlyEqual(terms)
    ensures (forall t :: t in terms ==> t.matchExpressions == []) ==> !AnyMatches(sat, Node(map[], map[]), terms)
  {
    forall t | t in terms && t.matchExpressions == []
      ensures !TermMatches(sat, Node(map[], map[]), t)
    {
      TermReads(sat, Node(map[], map[]), t);
      NoFields(t.matchFields);
    }
  }
}
