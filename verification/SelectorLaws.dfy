/** How selectors and affinities are written, character by character. */
module SelectorLaws {
  import opened Outcomes
  import opened Text
  import opened Selectors
  import opened SelectorMeaning
  import opened SelectorRoundTrips
  import opened Affinity
  import opened AffinityRoundTrip
  import Nodes = NodeAffinities
  import Pods = PodAffinities
  import Numerals

  // ----- Selectors -----

  /** A requirement of a label selector; other operators are an error. */
  lemma RequirementSpelled(k: string, op: Operator, vs: seq<string>)
    ensures RequirementText(Requirement(k, op, vs)) ==
      match op
      case In => Ok(k + "=" + Join(vs, ","))
      case NotIn => Ok(k + "!=" + Join(vs, ","))
      case Exists => Ok(k)
      case DoesNotExist => Ok("!" + k)
      case Unset => Ok(k + Join(vs, ","))
      case _ => Fail
  {
    assert k + "" + Join(vs, ",") == k + Join(vs, ",");
  }

  /** A requirement of a node term. */
  lemma NodeRequirementSpelled(k: string, op: Operator, vs: seq<string>)
    requires op != Unset
    ensures ExprTexts([Requirement(k, op, vs)], NodeOpText) ==
      match op
      case In => Ok([k + "=" + Join(vs, ",")])
      case NotIn => Ok([k + "!=" + Join(vs, ",")])
      case Exists => Ok([k])
      case DoesNotExist => Ok(["!" + k])
      case Gt => Ok([k + ">" + Join(vs, ",")])
      case Lt => Ok([k + "<" + Join(vs, ",")])
      case _ => Fail
  {
    var r := Requirement(k, op, vs);
    assert [r][..0] == [] && ExprTexts([], NodeOpText) == Ok([]);
    assert [] + [r] == [r];
    if NodeOpText(op).Ok? {
      ExprTextsSnoc([], r, NodeOpText);
      var text := SpellRequirement(r, NodeOpText(op).value);
      assert [] + [text] == [text];
    }
  }

  /** One more label is put behind an ampersand. */
  lemma LabelsSpelled(labels: Labels, order: seq<string>, k: string)
    requires k in labels && (forall j :: j in order ==> j in labels)
    ensures UnparseLabels(labels, []) == ""
    ensures var before := UnparseLabels(labels, order);
      UnparseLabels(labels, order + [k]) == (if before == "" then "" else before + "&") + k + "=" + labels[k]
  {
    assert (order + [k])[..|order|] == order;
    var before := UnparseLabels(labels, order);
    assert before + "&" + (k + "=" + labels[k]) == before + "&" + k + "=" + labels[k];
    assert "" + k + "=" + labels[k] == k + "=" + labels[k];
  }

  /** And so is one more requirement; the labels come first. */
  lemma SelectorSpelled(labels: Labels, order: seq<string>, reqs: seq<Requirement>, r: Requirement, before: string, text: string)
    requires forall k :: k in order ==> k in labels
    requires Unparse(LabelSelector(labels, reqs), order) == Ok(before) && RequirementText(r) == Ok(text)
    ensures Unparse(LabelSelector(labels, []), order) == Ok(UnparseLabels(labels, order))
    ensures Unparse(LabelSelector(labels, reqs + [r]), order) == Ok((if before == "" then "" else before + "&") + text)
  {
    assert (reqs + [r])[..|reqs|] == reqs;
    assert "" + text == text && before + "&" + text == (before + "&") + text;
  }

  /** Each form of a segment, read: a single equality is a label. */
  lemma SegmentsRead(k: string, vs: seq<string>)
    requires k != "" && IsToken(k) && vs != [] && forall v :: v in vs ==> IsToken(v)
    ensures ParseSegment(k + "=" + Join(vs, ",")) ==
      Ok(if |vs| == 1 then Label(k, vs[0]) else Require(Requirement(k, In, vs)))
    ensures ParseSegment(k + "!=" + Join(vs, ",")) == Ok(Require(Requirement(k, NotIn, vs)))
    ensures ParseSegment(k) == Ok(Require(Requirement(k, Exists, [])))
    ensures ParseSegment("!" + k) == Ok(Require(Requirement(k, DoesNotExist, [])))
  {
    hide ParseSegment, IsToken;
    RequirementSpelled(k, In, vs);
    RequirementReads(Requirement(k, In, vs));
    RequirementSpelled(k, NotIn, vs);
    RequirementReads(Requirement(k, NotIn, vs));
    RequirementSpelled(k, Exists, []);
    RequirementReads(Requirement(k, Exists, []));
    RequirementSpelled(k, DoesNotExist, []);
    RequirementReads(Requirement(k, DoesNotExist, []));
  }

  // ----- Affinities -----

  /** The expressions of a term, and how hard it is. */
  lemma TermSpelled(exprs: seq<string>, w: int32)
    ensures TermText(exprs, Hard) == Join(exprs, "&")
    ensures TermText(exprs, Soft(0)) == Join(exprs, "&") + ":soft"
    ensures w != 0 ==> TermText(exprs, Soft(w)) == Join(exprs, "&") + ":soft:" + Numerals.PrintInt(w as int, 10)
  {
    assert Join(exprs, "&") + "" == Join(exprs, "&");
    assert Join(exprs, "&") + (":soft" + "") == Join(exprs, "&") + ":soft";
    var digits := Numerals.PrintInt(w as int, 10);
    assert Join(exprs, "&") + (":soft" + (":" + digits)) == Join(exprs, "&") + ":soft:" + digits;
  }

  /** A node term is hard unless it is marked, and the mark alone is no weight. */
  lemma NodeMarksRead(text: string)
    requires ':' !in text && RevertNode(text).Ok?
    ensures RevertNode(text).value.strength == Hard
    ensures RevertNode(text + ":soft") == Ok(Item(Soft(0), RevertNode(text).value.term))
  {
    hide ParseNodeSegments;
    CutAtMark(text);
  }

  /** So is a pod term, but the mark alone is the weight 1. */
  lemma PodMarksRead(e: PodEntry)
    requires ':' !in e.affinity && RevertPod(e).Ok?
    ensures RevertPod(e).value.strength == Hard
    ensures RevertPod(e.(affinity := e.affinity + ":soft")) == Ok(Item(Soft(1), RevertPod(e).value.term))
  {
    hide Parse;
    CutAtMark(e.affinity);
  }

  lemma CutAtMark(text: string)
    requires ':' !in text
    ensures Split(text, ":") == [text] && Split(text + ":soft", ":") == [text, "soft"]
  {
    hide Split, Contains;
    SplitJoin([text], ':');
    SplitJoin([text, "soft"], ':');
    assert Join([text], ":") == text && Join([text, "soft"], ":") == text + ":soft" by {
      assert [text, "soft"][1..] == ["soft"];
      assert text + ":" + "soft" == text + ":soft";
    }
  }

  /** One term of each kind, in the order in which they come, each in the field of its kind. */
  lemma KindsInOrder(t: NodeTerm, p: PodTerm, q: PodTerm, node: seq<string>, pod: seq<string>, antiPod: seq<string>)
    requires ExprTexts(t.matchExpressions, NodeOpText) == Ok(node) && node != []
    requires Pods.PodExprs(p.selector) == Ok(pod) && pod != [] && Pods.PodExprs(q.selector) == Ok(antiPod) && antiPod != []
    ensures var a := KubeAffinity(Some(NodeAffinity(Some([t]), [])), Some(PodAffinity([p], [])), Some(PodAffinity([q], [])));
      Convert(map[], Some(a)) == Ok([
        Koki(Join(node, "&"), "", "", "", []),
        Koki("", Join(pod, "&"), "", p.topologyKey, p.namespaces),
        Koki("", "", Join(antiPod, "&"), q.topologyKey, q.namespaces)])
  {
    OneNode(t, node);
    OnePod(p, pod);
    OnePod(q, antiPod);
    hide ExprTexts, Pods.PodExprs, NodeTextsOf, PodEntriesOf, Join;
    var text, first, second := Join(node, "&"), PodEntry(Join(pod, "&"), p.topologyKey, p.namespaces), PodEntry(Join(antiPod, "&"), q.topologyKey, q.namespaces);
    OneOfEach(text, first, second);
    hide NodeKokis, PodKokis;
    var k, l, n := NodeKokis([text]), PodKokis([first], false), PodKokis([second], true);
    assert [] + k + l + n == [k[0], l[0], n[0]];
  }

  lemma OneOfEach(text: string, first: PodEntry, second: PodEntry)
    ensures SelectorTexts(map[]) == [] && NodeKokis([]) == []
    ensures NodeKokis([text]) == [Koki(text, "", "", "", [])]
    ensures PodKokis([first], false) == [Koki("", first.affinity, "", first.topology, first.namespaces)]
    ensures PodKokis([second], true) == [Koki("", "", second.affinity, second.topology, second.namespaces)]
  {
    assert [text][..0] == [] && [first][..0] == [] && [second][..0] == [];
  }

  lemma OneNode(t: NodeTerm, exprs: seq<string>)
    requires ExprTexts(t.matchExpressions, NodeOpText) == Ok(exprs) && exprs != []
    ensures NodeTextsOf(Some(NodeAffinity(Some([t]), []))) == Ok([Join(exprs, "&")])
  {
    var item := Item(Hard, t);
    assert [t][..0] == [] && Items<NodeTerm>([], []) == [] && Items([t], []) == [] + [item];
    Nodes.NoTexts();
    Nodes.TextsSnoc([], item);
    TermSpelled(exprs, 0);
    assert [] + [item] == [item] && [] + [Join(exprs, "&")] == [Join(exprs, "&")];
  }

  lemma OnePod(p: PodTerm, exprs: seq<string>)
    requires Pods.PodExprs(p.selector) == Ok(exprs) && exprs != []
    ensures PodEntriesOf(Some(PodAffinity([p], []))) == Ok([PodEntry(Join(exprs, "&"), p.topologyKey, p.namespaces)])
  {
    var item := Item(Hard, p);
    assert [p][..0] == [] && Items([p], []) == [] + [item];
    Pods.NoEntries();
    Pods.EntriesSnoc([], item);
    TermSpelled(exprs, 0);
    var e := PodEntry(Join(exprs, "&"), p.topologyKey, p.namespaces);
    assert [] + [item] == [item] && [] + [e] == [e];
  }

  /** Each form of a segment of a node term, read. */
  lemma NodeSegmentsRead(k: string, vs: seq<string>)
    requires k != "" && IsToken(k) && vs != [] && forall v :: v in vs ==> IsToken(v)
    ensures ParseNodeSegment(k + "=" + Join(vs, ",")) == Ok(Requirement(k, In, vs))
    ensures ParseNodeSegment(k + "!=" + Join(vs, ",")) == Ok(Requirement(k, NotIn, vs))
    ensures ParseNodeSegment(k + ">" + Join(vs, ",")) == Ok(Requirement(k, Gt, vs))
    ensures ParseNodeSegment(k + "<" + Join(vs, ",")) == Ok(Requirement(k, Lt, vs))
    ensures ParseNodeSegment(k) == Ok(Requirement(k, Exists, []))
    ensures ParseNodeSegment("!" + k) == Ok(Requirement(k, DoesNotExist, []))
  {
    hide ParseNodeSegment, IsToken;
    NodeRequirementReads(Requirement(k, In, vs));
    NodeRequirementReads(Requirement(k, NotIn, vs));
    NodeRequirementReads(Requirement(k, Gt, vs));
    NodeRequirementReads(Requirement(k, Lt, vs));
    NodeRequirementReads(Requirement(k, Exists, []));
    NodeRequirementReads(Requirement(k, DoesNotExist, []));
  }

  /** The converters walk the required terms, then the preferred ones, each list in its order. */
  lemma {:induction false} TermsInOrder<T>(required: seq<T>, preferred: seq<Weighted<T>>)
    ensures var items := Items(required, preferred);
      && |items| == |required| + |preferred|
      && (forall i :: 0 <= i < |required| ==> items[i] == Item(Hard, required[i]))
      && forall j :: 0 <= j < |preferred| ==> items[|required| + j] == Item(Soft(preferred[j].weight), preferred[j].term)
    decreases |required| + |preferred|
  {
    if preferred != [] {
      TermsInOrder(required, preferred[..|preferred| - 1]);
    } else if required != [] {
      TermsInOrder<T>(required[..|required| - 1], []);
    }
  }

  /** A Koki affinity is of the first kind that it names, and an error if it names none. */
  lemma KindOf(list: seq<Koki>, k: Koki, kinds: Kinds)
    requires Sorted(list) == Ok(kinds)
    ensures k.node != "" ==> Sorted(list + [k]) == Ok(Kinds(kinds.node + [k.node], kinds.pod, kinds.antiPod))
    ensures k.node == "" && k.pod != "" ==>
      Sorted(list + [k]) == Ok(Kinds(kinds.node, kinds.pod + [PodEntry(k.pod, k.topology, k.namespaces)], kinds.antiPod))
    ensures k.node == "" && k.pod == "" && k.antiPod != "" ==>
      Sorted(list + [k]) == Ok(Kinds(kinds.node, kinds.pod, kinds.antiPod + [PodEntry(k.antiPod, k.topology, k.namespaces)]))
    ensures k.node == "" && k.pod == "" && k.antiPod == "" ==> Sorted(list + [k]) == Fail
    ensures Sorted([]) == Ok(Kinds([], [], []))
  {
    assert (list + [k])[..|list|] == list;
  }
}
