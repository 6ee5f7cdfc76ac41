/** Whole affinities: Kubernetes to Koki and back. */
module AffinityRoundTrip {
  import opened Outcomes
  import opened Text
  import opened Selectors
  import opened SelectorMeaning
  import opened SelectorRoundTrips
  import opened LabelExprs
  import opened Affinity
  import Nodes = NodeAffinities
  import Pods = PodAffinities

  // ----- Kubernetes to Koki -----

  function NodeKokis(texts: seq<string>): (r: seq<Koki>)
    ensures |r| == |texts|
  {
    if texts == [] then [] else NodeKokis(texts[..|texts| - 1]) + [Koki(texts[|texts| - 1], "", "", "", [])]
  }

  function PodKoki(e: PodEntry, anti: bool): Koki {
    Koki("", if anti then "" else e.affinity, if anti then e.affinity else "", e.topology, e.namespaces)
  }

  function PodKokis(entries: seq<PodEntry>, anti: bool): (r: seq<Koki>)
    ensures |r| == |entries|
  {
    if entries == [] then []
    else PodKokis(entries[..|entries| - 1], anti) + [PodKoki(entries[|entries| - 1], anti)]
  }

  ghost function SelectorTexts(nodeSelector: Labels): seq<string> {
    var exprs := LabelExprsOf(nodeSelector);
    if exprs == [] then [] else [Join(exprs, "&")]
  }

  ghost function NodeTextsOf(na: Option<NodeAffinity>): Outcome<seq<string>> {
    if na.None? then Ok([]) else Nodes.Texts(Nodes.NodeItems(na.value))
  }

  ghost function PodEntriesOf(pa: Option<PodAffinity>): Outcome<seq<PodEntry>> {
    if pa.None? then Ok([]) else Pods.Entries(Pods.PodItems(pa.value))
  }

  ghost function Convert(nodeSelector: Labels, affinity: Option<KubeAffinity>): Outcome<seq<Koki>> {
    if affinity.None? then Ok(NodeKokis(SelectorTexts(nodeSelector)))
    else
      var node :- NodeTextsOf(affinity.value.node);
      var pod :- PodEntriesOf(affinity.value.pod);
      var antiPod :- PodEntriesOf(affinity.value.antiPod);
      Ok(NodeKokis(SelectorTexts(nodeSelector)) + NodeKokis(node) + PodKokis(pod, false) + PodKokis(antiPod, true))
  }

  method ToNodeKokis(texts: seq<string>) returns (r: seq<Koki>)
    ensures r == NodeKokis(texts)
  {
    r := [];
    for i := 0 to |texts|
      invariant r == NodeKokis(texts[..i])
    {
      assert texts[..i + 1][..i] == texts[..i];
      r := r + [Koki(texts[i], "", "", "", [])];
    }
    assert texts[..|texts|] == texts;
  }

  method ToPodKokis(entries: seq<PodEntry>, isAntiAffinity: bool) returns (r: seq<Koki>)
    ensures r == PodKokis(entries, isAntiAffinity)
  {
    r := [];
    for i := 0 to |entries|
      invariant r == PodKokis(entries[..i], isAntiAffinity)
    {
      assert entries[..i + 1][..i] == entries[..i];
      var a := Koki("", entries[i].affinity, "", entries[i].topology, entries[i].namespaces);
      if isAntiAffinity {
        a := a.(antiPod := a.pod, pod := "");
      }
      r := r + [a];
    }
    assert entries[..|entries|] == entries;
  }

  method ConvertAffinity(nodeSelector: Labels, spec: Option<KubeAffinity>) returns (r: Outcome<seq<Koki>>)
    ensures r == Convert(nodeSelector, spec)
  {
    hide LabelExprsOf, NodeKokis, PodKokis;
    var exprs := ConvertMatchLabelsToExprs(nodeSelector);
    var affinity := ToNodeKokis(if |exprs| > 0 then [Join(exprs, "&")] else []);
    if spec.None? {
      return Ok(affinity);
    }
    var node := Nodes.ConvertNodeAffinity(spec.value.node);
    if !node.Ok? {
      return node.PropagateFailure();
    }
    var pod := Pods.ConvertPodAffinity(spec.value.pod);
    if !pod.Ok? {
      return pod.PropagateFailure();
    }
    var antiPod := Pods.ConvertPodAffinity(spec.value.antiPod);
    if !antiPod.Ok? {
      return antiPod.PropagateFailure();
    }
    var nodes := ToNodeKokis(node.value);
    var pods := ToPodKokis(pod.value, false);
    var antiPods := ToPodKokis(antiPod.value, true);
    return Ok(affinity + nodes + pods + antiPods);
  }

  // ----- Koki to Kubernetes -----

  datatype Kinds = Kinds(node: seq<string>, pod: seq<PodEntry>, antiPod: seq<PodEntry>)

  function AddKoki(ks: Kinds, k: Koki): Outcome<Kinds> {
    if k.node != "" then Ok(ks.(node := ks.node + [k.node]))
    else if k.pod != "" then Ok(ks.(pod := ks.pod + [PodEntry(k.pod, k.topology, k.namespaces)]))
    else if k.antiPod != "" then Ok(ks.(antiPod := ks.antiPod + [PodEntry(k.antiPod, k.topology, k.namespaces)]))
    else Fail
  }

  function Sorted(list: seq<Koki>): (r: Outcome<Kinds>)
    ensures !r.Crash?
  {
    if list == [] then Ok(Kinds([], [], []))
    else
      var before :- Sorted(list[..|list| - 1]);
      AddKoki(before, list[|list| - 1])
  }

  /** An affinity of no kind is remembered as an error while the loop goes on. */
  method SplitAffinities(affinities: seq<Koki>) returns (kinds: Kinds, failed: bool)
    ensures Sorted(affinities) == if failed then Fail else Ok(kinds)
  {
    kinds := Kinds([], [], []);
    failed := false;
    for i := 0 to |affinities|
      invariant Sorted(affinities[..i]) == if failed then Fail else Ok(kinds)
    {
      assert affinities[..i + 1][..i] == affinities[..i];
      var affinity := affinities[i];
      if |affinity.node| > 0 {
        kinds := kinds.(node := kinds.node + [affinity.node]);
      } else if |affinity.pod| > 0 {
        kinds := kinds.(pod := kinds.pod + [PodEntry(affinity.pod, affinity.topology, affinity.namespaces)]);
      } else if |affinity.antiPod| > 0 {
        kinds := kinds.(antiPod := kinds.antiPod + [PodEntry(affinity.antiPod, affinity.topology, affinity.namespaces)]);
      } else {
        failed := true;
      }
    }
    assert affinities[..|affinities|] == affinities;
  }

  function Revert(list: seq<Koki>): Outcome<Option<KubeAffinity>> {
    var kinds :- Sorted(list);
    var node :- Nodes.RevertNodes(kinds.node);
    var pod :- Pods.RevertPods(kinds.pod);
    var antiPod :- Pods.RevertPods(kinds.antiPod);
    if node == [] && pod == [] && antiPod == [] then Ok(None)
    else Ok(Some(KubeAffinity(Nodes.Collected(node), Pods.Collected(pod), Pods.Collected(antiPod))))
  }

  method RevertNodeAffinity(affinities: seq<string>) returns (r: Outcome<Option<NodeAffinity>>)
    ensures r == match Nodes.RevertNodes(affinities)
                 case Ok(items) => Ok(Nodes.Collected(items))
                 case failed => failed.PropagateFailure()
  {
    NodeLengths(affinities);
    if |affinities| == 0 {
      return Ok(None);
    }
    var lists := Nodes.SplitAndRevertNodeAffinity(affinities);
    if !lists.Ok? {
      return lists.PropagateFailure();
    }
    var (hard, soft) := lists.value;
    return Ok(Some(NodeAffinity(if |hard| > 0 then Some(hard) else None, soft)));
  }

  lemma NodeLengths(texts: seq<string>)
    ensures Nodes.RevertNodes(texts).Ok? ==> (texts == [] <==> Nodes.RevertNodes(texts).value == [])
  {
  }

  lemma PodLengths(entries: seq<PodEntry>)
    ensures Pods.RevertPods(entries).Ok? ==> (entries == [] <==> Pods.RevertPods(entries).value == [])
  {
  }

  method RevertPodAffinity(affinities: seq<PodEntry>) returns (r: Outcome<Option<PodAffinity>>)
    ensures r == match Pods.RevertPods(affinities)
                 case Ok(items) => Ok(Pods.Collected(items))
                 case failed => failed.PropagateFailure()
  {
    PodLengths(affinities);
    if |affinities| == 0 {
      return Ok(None);
    }
    var lists := Pods.SplitAndRevertPodAffinity(affinities);
    if !lists.Ok? {
      return lists.PropagateFailure();
    }
    var (hard, soft) := lists.value;
    return Ok(Some(PodAffinity(hard, soft)));
  }

  method ConvertKokiAffinity(kokiAffinities: seq<Koki>) returns (r: Outcome<Option<KubeAffinity>>)
    ensures r == Revert(kokiAffinities)
  {
    hide Sorted;
    var kinds, failed := SplitAffinities(kokiAffinities);
    if failed {
      return Fail;
    }
    var node := RevertNodeAffinity(kinds.node);
    if !node.Ok? {
      return node.PropagateFailure();
    }
    var pod := RevertPodAffinity(kinds.pod);
    if !pod.Ok? {
      return pod.PropagateFailure();
    }
    var antiPod := RevertPodAffinity(kinds.antiPod);
    if !antiPod.Ok? {
      return antiPod.PropagateFailure();
    }
    if node.value.None? && pod.value.None? && antiPod.value.None? {
      return Ok(None);
    }
    return Ok(Some(KubeAffinity(node.value, pod.value, antiPod.value)));
  }

  // ----- There and back -----

  lemma SortedSnoc(list: seq<Koki>, k: Koki)
    ensures Sorted(list + [k]) == if Sorted(list).Ok? then AddKoki(Sorted(list).value, k) else Fail
  {
    assert (list + [k])[..|list|] == list;
  }

  lemma {:induction false} NodesSorted(list: seq<Koki>, texts: seq<string>)
    requires Sorted(list).Ok? && "" !in texts
    ensures Sorted(list + NodeKokis(texts)) == Ok(Sorted(list).value.(node := Sorted(list).value.node + texts))
  {
    if texts == [] {
      assert list + NodeKokis(texts) == list;
      assert Sorted(list).value.node + texts == Sorted(list).value.node;
    } else {
      hide Sorted;
      var before, last := texts[..|texts| - 1], texts[|texts| - 1];
      assert texts == before + [last];
      NodesSorted(list, before);
      SortedSnoc(list + NodeKokis(before), Koki(last, "", "", "", []));
      assert list + NodeKokis(texts) == list + NodeKokis(before) + [Koki(last, "", "", "", [])];
      assert Sorted(list).value.node + texts == Sorted(list).value.node + before + [last];
    }
  }

  lemma {:induction false} PodsSorted(list: seq<Koki>, entries: seq<PodEntry>, anti: bool)
    requires Sorted(list).Ok? && forall e :: e in entries ==> e.affinity != ""
    ensures Sorted(list + PodKokis(entries, anti)) ==
            Ok(if anti then Sorted(list).value.(antiPod := Sorted(list).value.antiPod + entries)
               else Sorted(list).value.(pod := Sorted(list).value.pod + entries))
  {
    if entries == [] {
      assert list + PodKokis(entries, anti) == list;
      var start := if anti then Sorted(list).value.antiPod else Sorted(list).value.pod;
      assert start + entries == start;
    } else {
      hide Sorted;
      var before, last := entries[..|entries| - 1], entries[|entries| - 1];
      assert entries == before + [last];
      PodsSorted(list, before, anti);
      SortedSnoc(list + PodKokis(before, anti), PodKoki(last, anti));
      assert list + PodKokis(entries, anti) == list + PodKokis(before, anti) + [PodKoki(last, anti)];
      var start := if anti then Sorted(list).value.antiPod else Sorted(list).value.pod;
      assert start + entries == start + before + [last];
    }
  }

  /** splitAffinities takes a converted list apart again. */
  lemma SortingSeparates(texts: seq<string>, pods: seq<PodEntry>, antiPods: seq<PodEntry>)
    requires "" !in texts
    requires forall e :: e in pods + antiPods ==> e.affinity != ""
    ensures Sorted(NodeKokis(texts) + PodKokis(pods, false) + PodKokis(antiPods, true)) == Ok(Kinds(texts, pods, antiPods))
  {
    assert Sorted([]) == Ok(Kinds([], [], []));
    NodesSorted([], texts);
    assert [] + NodeKokis(texts) == NodeKokis(texts) && [] + texts == texts && [] + pods == pods && [] + antiPods == antiPods;
    hide Sorted, NodeKokis, PodKokis;
    PodsSorted(NodeKokis(texts), pods, false);
    PodsSorted(NodeKokis(texts) + PodKokis(pods, false), antiPods, true);
  }

  /** The node selector as a term: one equality for each label. */
  function Equalities(labels: Labels, order: seq<string>): seq<Requirement>
    requires forall k :: k in order ==> k in labels
  {
    if order == [] then []
    else
      var k := order[|order| - 1];
      Equalities(labels, order[..|order| - 1]) + [Requirement(k, In, [labels[k]])]
  }

  lemma {:induction false} EqualitiesAre(labels: Labels, order: seq<string>)
    requires forall k :: k in order ==> k in labels
    ensures forall r :: r in Equalities(labels, order) <==> exists k :: k in order && r == Requirement(k, In, [labels[k]])
  {
    if order != [] {
      var before, k := order[..|order| - 1], order[|order| - 1];
      EqualitiesAre(labels, before);
      assert order == before + [k];
    }
  }

  lemma {:induction false} EqualitiesSpelled(labels: Labels, order: seq<string>)
    requires forall k :: k in order ==> k in labels
    ensures ExprTexts(Equalities(labels, order), NodeOpText) == Ok(LabelTexts(labels, order))
  {
    if order == [] {
      assert LabelTexts(labels, order) == [];
    } else {
      var before, k := order[..|order| - 1], order[|order| - 1];
      EqualitiesSpelled(labels, before);
      var r := Requirement(k, In, [labels[k]]);
      assert Equalities(labels, order) == Equalities(labels, before) + [r];
      assert LabelTexts(labels, order) == LabelTexts(labels, before) + [LabelText(k, labels[k])];
      assert SpellRequirement(r, "=") == LabelText(k, labels[k]);
      hide Equalities, SpellRequirement, LabelText, LabelTexts;
      ExprTextsSnoc(Equalities(labels, before), r, NodeOpText);
    }
  }

  /** The node selector counts as one more required term, ahead of the others. */
  function WithSelector(nodeSelector: Labels, order: seq<string>, na: Option<NodeAffinity>): seq<Item<NodeTerm>>
    requires forall k :: k in order ==> k in nodeSelector
  {
    (if order == [] then [] else [Item(Hard, NodeTerm(Equalities(nodeSelector, order), []))]) +
    if na.None? then [] else Nodes.NodeItems(na.value)
  }

  predicate WellFormedLabels(labels: Labels) {
    forall k :: k in labels ==> k != "" && IsToken(k) && IsToken(labels[k])
  }

  predicate WellFormedAffinity(a: KubeAffinity) {
    && (a.node.Some? ==> Nodes.WellFormedItems(Nodes.NodeItems(a.node.value)))
    && (a.pod.Some? ==> Pods.WellFormedItems(Pods.PodItems(a.pod.value)))
    && (a.antiPod.Some? ==> Pods.WellFormedItems(Pods.PodItems(a.antiPod.value)))
  }

  /** The terms of a pod affinity that select by something, each meaning the same, and nothing else. */
  ghost predicate PodsSurvive(pa: Option<PodAffinity>, back: Option<PodAffinity>) {
    var kept := if pa.None? then [] else Pods.Kept(Pods.PodItems(pa.value));
    exists items: seq<Item<PodTerm>> ::
      && back == Pods.Collected(items) && |items| == |kept|
      && forall i :: 0 <= i < |items| ==> kept[i].term.selector.Some? && Pods.Survives(kept[i], items[i])
  }

  lemma {:induction false} NodeTextsConcat(a: seq<Item<NodeTerm>>, b: seq<Item<NodeTerm>>)
    requires Nodes.Texts(a).Ok? && Nodes.Texts(b).Ok?
    ensures Nodes.Texts(a + b) == Ok(Nodes.Texts(a).value + Nodes.Texts(b).value)
    decreases |b|
  {
    if b == [] {
      assert a + b == a;
      assert Nodes.Texts(a).value + [] == Nodes.Texts(a).value;
    } else {
      hide Nodes.Texts, ExprTexts, TermText;
      var before, last := b[..|b| - 1], b[|b| - 1];
      assert b == before + [last] && a + b == (a + before) + [last];
      Nodes.TextsSnoc(before, last);
      NodeTextsConcat(a, before);
      Nodes.TextsSnoc(a + before, last);
      var exprs := ExprTexts(last.term.matchExpressions, NodeOpText).value;
      Associates(Nodes.Texts(a).value, Nodes.Texts(before).value, [TermText(exprs, last.strength)]);
    }
  }

  lemma Associates(x: seq<string>, y: seq<string>, z: seq<string>)
    ensures x + (y + z) == x + y + z
  {
  }

  /** The texts of the node selector and of the node affinity are those of one list of items. */
  lemma NodeSide(nodeSelector: Labels, na: Option<NodeAffinity>) returns (order: seq<string>)
    requires WellFormedLabels(nodeSelector)
    requires na.Some? ==> Nodes.WellFormedItems(Nodes.NodeItems(na.value))
    ensures Enumerates(order, nodeSelector.Keys)
    ensures Nodes.WellFormedItems(WithSelector(nodeSelector, order, na))
    ensures NodeTextsOf(na).Ok?
    ensures Nodes.Texts(WithSelector(nodeSelector, order, na)) == Ok(SelectorTexts(nodeSelector) + NodeTextsOf(na).value)
  {
    order := ExprsOrder(nodeSelector);
    var rest := if na.None? then [] else Nodes.NodeItems(na.value);
    assert NodeTextsOf(na) == Nodes.Texts(rest) by {
      Nodes.NoTexts();
    }
    assert Nodes.WellFormedItems(rest);
    hide Nodes.Texts, Nodes.WellFormedItems, Nodes.NodeItems, LabelExprsOf, LabelTexts, Equalities, NodeTextsOf, SelectorTexts;
    Nodes.NodesRoundTrip(rest);
    if order == [] {
      NoSelector(nodeSelector, na);
    } else {
      SelectorItem(nodeSelector, order);
      var item := Item(Hard, NodeTerm(Equalities(nodeSelector, order), []));
      NodeTextsConcat([item], rest);
      BothWellFormed([item], rest);
      assert WithSelector(nodeSelector, order, na) == [item] + rest;
    }
  }

  lemma BothWellFormed(a: seq<Item<NodeTerm>>, b: seq<Item<NodeTerm>>)
    requires Nodes.WellFormedItems(a) && Nodes.WellFormedItems(b)
    ensures Nodes.WellFormedItems(a + b) && Nodes.WellFormedItems([])
  {
    hide WellFormedNodeRequirement;
  }

  lemma NoSelector(nodeSelector: Labels, na: Option<NodeAffinity>)
    requires LabelExprsOf(nodeSelector) == LabelTexts(nodeSelector, []) && NodeTextsOf(na).Ok?
    ensures WithSelector(nodeSelector, [], na) == if na.None? then [] else Nodes.NodeItems(na.value)
    ensures SelectorTexts(nodeSelector) + NodeTextsOf(na).value == NodeTextsOf(na).value
  {
  }

  lemma SelectorItem(nodeSelector: Labels, order: seq<string>)
    requires WellFormedLabels(nodeSelector) && order != []
    requires (forall k :: k in order ==> k in nodeSelector) && LabelExprsOf(nodeSelector) == LabelTexts(nodeSelector, order)
    ensures var item := Item(Hard, NodeTerm(Equalities(nodeSelector, order), []));
      Nodes.WellFormedItems([item]) && Nodes.Texts([item]) == Ok(SelectorTexts(nodeSelector))
  {
    hide LabelExprsOf, Equalities, LabelTexts, Nodes.Texts, Join, Nodes.WellFormedItems, Enumerates, WellFormedLabels;
    EqualitiesSpelled(nodeSelector, order);
    SelectorWellFormed(nodeSelector, order);
    OneText(Equalities(nodeSelector, order), LabelTexts(nodeSelector, order));
  }

  lemma OneText(reqs: seq<Requirement>, texts: seq<string>)
    requires ExprTexts(reqs, NodeOpText) == Ok(texts) && texts != []
    ensures Nodes.Texts([Item(Hard, NodeTerm(reqs, []))]) == Ok([Join(texts, "&")])
  {
    hide ExprTexts, Nodes.Texts, Join;
    var item := Item(Hard, NodeTerm(reqs, []));
    Nodes.NoTexts();
    Nodes.TextsSnoc([], item);
    assert [] + [item] == [item];
    var body := Join(texts, "&");
    assert body + "" == body && [] + [body] == [body];
  }

  lemma SelectorWellFormed(nodeSelector: Labels, order: seq<string>)
    requires WellFormedLabels(nodeSelector) && forall k :: k in order ==> k in nodeSelector
    ensures Nodes.WellFormedItems([Item(Hard, NodeTerm(Equalities(nodeSelector, order), []))])
  {
    EqualitiesAre(nodeSelector, order);
    hide Equalities, IsToken;
    forall r | r in Equalities(nodeSelector, order)
      ensures WellFormedNodeRequirement(r)
    {
    }
  }

  lemma PodSide(pa: Option<PodAffinity>) returns (items: seq<Item<PodTerm>>)
    requires pa.Some? ==> Pods.WellFormedItems(Pods.PodItems(pa.value))
    ensures PodEntriesOf(pa).Ok? && forall e :: e in PodEntriesOf(pa).value ==> e.affinity != ""
    ensures Pods.RevertPods(PodEntriesOf(pa).value) == Ok(items) && PodsSurvive(pa, Pods.Collected(items))
  {
    hide Pods.Survives;
    Pods.NoEntries();
    if pa.None? {
      return [];
    }
    Pods.PodsRoundTrip(Pods.PodItems(pa.value));
    items := Pods.RevertPods(PodEntriesOf(pa).value).value;
  }

  function NoAffinity(): KubeAffinity {
    KubeAffinity(None, None, None)
  }

  /** Kubernetes to Koki to Kubernetes, for every well-formed affinity: the node terms come back
      exactly, after one more required term for the node selector, without empty terms and field
      requirements; pod and anti-pod terms come back up to the writing of their selectors. */
  lemma KubeKokiKube(nodeSelector: Labels, affinity: Option<KubeAffinity>) returns (order: seq<string>)
    requires WellFormedLabels(nodeSelector) && (affinity.Some? ==> WellFormedAffinity(affinity.value))
    ensures Enumerates(order, nodeSelector.Keys)
    ensures Convert(nodeSelector, affinity).Ok? && Revert(Convert(nodeSelector, affinity).value).Ok?
    ensures var a := if affinity.Some? then affinity.value else NoAffinity();
      var found := Revert(Convert(nodeSelector, affinity).value).value;
      var back := if found.Some? then found.value else NoAffinity();
      && back.node == Nodes.Collected(Nodes.Kept(WithSelector(nodeSelector, order, a.node)))
      && PodsSurvive(a.pod, back.pod) && PodsSurvive(a.antiPod, back.antiPod)
      && found != Some(NoAffinity())
  {
    hide PodsSurvive, Nodes.Kept, WithSelector, SelectorTexts, Sorted, Convert;
    hide Nodes.WellFormedItems, Pods.WellFormedItems, PodEntriesOf, NodeTextsOf, WellFormedLabels;
    var a := if affinity.Some? then affinity.value else NoAffinity();
    order := NodeSide(nodeSelector, a.node);
    var items := WithSelector(nodeSelector, order, a.node);
    var pods := PodSide(a.pod);
    var antiPods := PodSide(a.antiPod);
    Nodes.NodesRoundTrip(items);
    var texts := SelectorTexts(nodeSelector) + NodeTextsOf(a.node).value;
    ConvertedList(nodeSelector, affinity);
    SortingSeparates(texts, PodEntriesOf(a.pod).value, PodEntriesOf(a.antiPod).value);
    NothingCollected();
  }

  lemma NothingCollected()
    ensures Nodes.Collected([]) == None && Pods.Collected([]) == None
  {
  }

  lemma {:induction false} NodeKokisConcat(s: seq<string>, t: seq<string>)
    ensures NodeKokis(s + t) == NodeKokis(s) + NodeKokis(t)
    decreases |t|
  {
    if t == [] {
      assert s + t == s;
    } else {
      NodeKokisConcat(s, t[..|t| - 1]);
      assert (s + t)[..|s + t| - 1] == s + t[..|t| - 1];
    }
  }

  lemma ConvertedList(nodeSelector: Labels, affinity: Option<KubeAffinity>)
    requires var a := if affinity.Some? then affinity.value else NoAffinity();
      NodeTextsOf(a.node).Ok? && PodEntriesOf(a.pod).Ok? && PodEntriesOf(a.antiPod).Ok?
    ensures var a := if affinity.Some? then affinity.value else NoAffinity();
      Convert(nodeSelector, affinity) == Ok(NodeKokis(SelectorTexts(nodeSelector) + NodeTextsOf(a.node).value) +
        PodKokis(PodEntriesOf(a.pod).value, false) + PodKokis(PodEntriesOf(a.antiPod).value, true))
  {
    var a := if affinity.Some? then affinity.value else NoAffinity();
    NodeKokisConcat(SelectorTexts(nodeSelector), NodeTextsOf(a.node).value);
    if affinity.None? {
      var kokis := NodeKokis(SelectorTexts(nodeSelector));
      assert SelectorTexts(nodeSelector) + [] == SelectorTexts(nodeSelector);
      assert kokis + [] + [] == kokis;
    }
  }
}
