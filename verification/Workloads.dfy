/** Selectors and template labels of replica sets (and, alike, of deployments, daemon sets, stateful
    sets and jobs): hoisted out of the template on the way to Koki, pushed back on the way to Kubernetes. */
module Workloads {
  import opened Outcomes
  import opened Text
  import opened Selectors
  import opened SelectorMeaning
  import opened SelectorRoundTrips

  /** A Go map: None is nil, which differs from the empty map under reflect.DeepEqual and == nil only. */
  type GoMap = Option<Labels>

  function Entries(m: GoMap): Labels {
    if m.Some? then m.value else map[]
  }

  /** ParseLabelSelector returns a nil map for no labels. */
  function Found(labels: Labels): GoMap {
    if labels == map[] then None else Some(labels)
  }

  datatype KubeSelector = KubeSelector(matchLabels: GoMap, matchExpressions: seq<Requirement>)

  datatype RSSelector = RSSelector(shorthand: string, labels: GoMap)

  datatype Meta = Meta(cluster: string, name: string, namespace: string, labels: GoMap, annotations: GoMap)

  const ZERO_META := Meta("", "", "", None, None)

  /** The selector and the pod template of a Kubernetes workload. */
  datatype KubeWorkload = KubeWorkload(selector: Option<KubeSelector>, template: Meta)

  /** The same on the Koki side, as a value. */
  datatype KokiState = KokiState(selector: Option<RSSelector>, template: Option<Meta>)

  function Plain(sel: KubeSelector): LabelSelector {
    LabelSelector(Entries(sel.matchLabels), sel.matchExpressions)
  }

  /** An absent selector stands for the labels of the template. */
  function EffectiveOf(sel: Option<KubeSelector>, templateLabels: GoMap): LabelSelector {
    if sel.Some? then Plain(sel.value) else LabelSelector(Entries(templateLabels), [])
  }

  // ----- Kubernetes to Koki -----

  /** The Koki selector and the labels that have to stay with the template; `order` is the order in
      which the label map happens to be printed. */
  function HoistSelector(sel: Option<KubeSelector>, templateLabels: GoMap, order: seq<string>): Outcome<(RSSelector, GoMap)>
    requires sel.Some? ==> forall k :: k in order ==> k in Entries(sel.value.matchLabels)
  {
    match sel
    case None => Ok((RSSelector("", templateLabels), None))
    case Some(s) =>
      if s.matchExpressions == [] then
        Ok((RSSelector("", s.matchLabels), if s.matchLabels == templateLabels then None else templateLabels))
      else
        var text :- Unparse(Plain(s), order);
        Ok((RSSelector(text, None), templateLabels))
  }

  function Override(labels: GoMap, meta: Option<Meta>): Option<Meta> {
    var kept := if Entries(labels) == map[] then None else labels;
    match meta
    case None => if kept.None? then None else Some(ZERO_META.(labels := kept))
    case Some(m) => if m.(labels := kept) == ZERO_META then None else Some(m.(labels := kept))
  }

  function Hoist(w: KubeWorkload, order: seq<string>): Outcome<KokiState>
    requires w.selector.Some? ==> forall k :: k in order ==> k in Entries(w.selector.value.matchLabels)
  {
    var hoisted :- HoistSelector(w.selector, w.template.labels, order);
    var (sel, override) := hoisted;
    Ok(KokiState(if sel.labels.Some? || sel.shorthand != "" then Some(sel) else None, Override(override, Some(w.template))))
  }

  // ----- Koki to Kubernetes -----

  function LowerSelector(sel: Option<RSSelector>, templateLabels: GoMap): Outcome<(Option<KubeSelector>, GoMap)> {
    match sel
    case None => Ok((None, None))
    case Some(s) =>
      if s.shorthand != "" then
        var parsed :- Parse(s.shorthand);
        if parsed.None? then Crash
        else
          var found := KubeSelector(Found(parsed.value.matchLabels), parsed.value.matchExpressions);
          if Entries(templateLabels) == map[] && found.matchExpressions == [] then Ok((Some(found), found.matchLabels))
          else Ok((Some(found), templateLabels))
      else
        Ok((Some(KubeSelector(s.labels, [])), if Entries(templateLabels) == map[] then s.labels else templateLabels))
  }

  /** revertPodObjectMeta: empty maps become nil. */
  function LowerMeta(m: Meta): Meta {
    m.(labels := if Entries(m.labels) == map[] then None else m.labels,
       annotations := if Entries(m.annotations) == map[] then None else m.annotations)
  }

  /** The Kubernetes workload, and the Koki template metadata as the conversion leaves it behind;
      `hasSpec` says that the pod template itself is not empty. */
  function Lower(k: KokiState, hasSpec: bool): Outcome<(KubeWorkload, Option<Meta>)> {
    var lowered :- LowerSelector(k.selector, if k.template.Some? then k.template.value.labels else None);
    var (sel, override) := lowered;
    var meta := Override(override, k.template);
    if meta.None? && !hasSpec then Fail
    else Ok((KubeWorkload(sel, if meta.Some? then LowerMeta(meta.value) else ZERO_META), meta))
  }

  // ----- The converters -----

  class PodTemplateMeta {
    var cluster: string
    var name: string
    var namespace: string
    var labels: GoMap
    var annotations: GoMap

    constructor (m: Meta)
      ensures Value() == m
    {
      cluster, name, namespace, labels, annotations := m.cluster, m.name, m.namespace, m.labels, m.annotations;
    }

    function Value(): Meta
      reads this
    {
      Meta(cluster, name, namespace, labels, annotations)
    }
  }

  class ReplicaSet {
    var selector: Option<RSSelector>
    var templateMetadata: PodTemplateMeta?
    var hasSpec: bool

    constructor (sel: Option<RSSelector>, meta: PodTemplateMeta?, spec: bool)
      ensures selector == sel && templateMetadata == meta && hasSpec == spec
    {
      selector, templateMetadata, hasSpec := sel, meta, spec;
    }

    function Value(): KokiState
      reads this, templateMetadata
    {
      KokiState(selector, MetaValue(templateMetadata))
    }
  }

  function MetaValue(meta: PodTemplateMeta?): Option<Meta>
    reads meta
  {
    if meta == null then None else Some(meta.Value())
  }

  /** The hoisted selector selects what was selected, as labels if there are only such, and the labels of
      the template stay there unless the selector has the same. */
  method ConvertRSLabelSelector(kubeSelector: Option<KubeSelector>, kubeTemplateLabels: GoMap)
    returns (r: Outcome<(RSSelector, GoMap)>, ghost order: seq<string>)
    ensures kubeSelector.Some? && kubeSelector.value.matchExpressions != [] ==>
      Enumerates(order, Entries(kubeSelector.value.matchLabels).Keys)
    ensures kubeSelector.Some? ==> forall k :: k in order ==> k in Entries(kubeSelector.value.matchLabels)
    ensures r == HoistSelector(kubeSelector, kubeTemplateLabels, order)
    ensures var sel := EffectiveOf(kubeSelector, kubeTemplateLabels);
      && (sel.matchExpressions == [] ==>
          r.Ok? && r.value.0.shorthand == "" && LabelSelector(Entries(r.value.0.labels), []) == sel)
      && (sel.matchExpressions != [] && WellFormedSelector(sel) ==>
          r.Ok? && r.value.0.labels.None? && Parse(r.value.0.shorthand) == Ok(Some(Reread(sel))))
    ensures r.Ok? ==> r.value.1 == kubeTemplateLabels || (r.value.1.None? && r.value.0.labels == kubeTemplateLabels)
    ensures r.Ok? ==> (r.value.1.None? <==>
      || kubeTemplateLabels.None? || kubeSelector.None?
      || (kubeSelector.value.matchExpressions == [] && kubeSelector.value.matchLabels == kubeTemplateLabels))
  {
    order := [];
    if kubeSelector.None? {
      return Ok((RSSelector("", kubeTemplateLabels), None)), order;
    }
    var sel := kubeSelector.value;
    if |sel.matchExpressions| == 0 {
      if sel.matchLabels == kubeTemplateLabels {
        return Ok((RSSelector("", sel.matchLabels), None)), order;
      }
      return Ok((RSSelector("", sel.matchLabels), kubeTemplateLabels)), order;
    }
    var text, printed := UnparseLabelSelector(Some(Plain(sel)));
    order := printed;
    hide Unparse, Parse, Reread, WellFormedSelector;
    if WellFormedSelector(Plain(sel)) {
      PrintingKeepsMeaning(Plain(sel), order);
    }
    if !text.Ok? {
      return text.PropagateFailure(), order;
    }
    return Ok((RSSelector(text.value, None), kubeTemplateLabels)), order;
  }

  /** Writes the labels into the metadata it is given. */
  method ApplyTemplateLabelsOverride(labelsOverride: GoMap, kokiMeta: PodTemplateMeta?) returns (r: PodTemplateMeta?)
    modifies kokiMeta
    ensures MetaValue(r) == Override(labelsOverride, old(MetaValue(kokiMeta)))
    ensures r == null || r == kokiMeta || fresh(r)
    ensures kokiMeta != null ==>
      kokiMeta.Value() == old(kokiMeta.Value()).(labels := if Entries(labelsOverride) == map[] then None else labelsOverride)
  {
    if kokiMeta == null {
      if |Entries(labelsOverride)| > 0 {
        r := new PodTemplateMeta(ZERO_META.(labels := labelsOverride));
        return r;
      }
      return null;
    }
    if |Entries(labelsOverride)| > 0 {
      kokiMeta.labels := labelsOverride;
    } else {
      kokiMeta.labels := None;
    }
    if kokiMeta.Value() == ZERO_META {
      return null;
    }
    return kokiMeta;
  }

  method ConvertReplicaSet(kube: KubeWorkload, hasSpec: bool) returns (r: Option<ReplicaSet>, ghost order: seq<string>)
    ensures kube.selector.Some? && kube.selector.value.matchExpressions != [] ==>
      Enumerates(order, Entries(kube.selector.value.matchLabels).Keys)
    ensures kube.selector.Some? ==> forall k :: k in order ==> k in Entries(kube.selector.value.matchLabels)
    ensures r.None? <==> !Hoist(kube, order).Ok?
    ensures r.Some? ==> fresh(r.value) && Hoist(kube, order) == Ok(r.value.Value()) && r.value.hasSpec == hasSpec
    ensures r.Some? && r.value.templateMetadata != null ==> fresh(r.value.templateMetadata)
    ensures r.Some? ==>
      var taken := kube.selector.None? || (kube.selector.value.matchExpressions == [] && kube.selector.value.matchLabels == kube.template.labels);
      var kept := kube.template.(labels := if taken || Entries(kube.template.labels) == map[] then None else kube.template.labels);
      MetaValue(r.value.templateMetadata) == if kept == ZERO_META then None else Some(kept)
    ensures r.Some? && (kube.selector.None? || kube.selector.value.matchExpressions == []) ==>
      var labels := if kube.selector.Some? then kube.selector.value.matchLabels else kube.template.labels;
      r.value.selector == if labels.None? then None else Some(RSSelector("", labels))
    ensures r.Some? && kube.selector.Some? && kube.selector.value.matchExpressions != [] && WellFormedSelector(Plain(kube.selector.value)) ==>
      && r.value.selector.Some? && r.value.selector.value.labels.None?
      && Parse(r.value.selector.value.shorthand) == Ok(Some(Reread(Plain(kube.selector.value))))
  {
    hide Parse, Unparse, Reread, WellFormedSelector;
    assert Parse("") == Ok(None) by {
      NothingParses();
    }
    var hoisted, printed := ConvertRSLabelSelector(kube.selector, kube.template.labels);
    order := printed;
    if !hoisted.Ok? {
      return None, order;
    }
    var (sel, override) := hoisted.value;
    var meta := new PodTemplateMeta(kube.template);
    var kept := ApplyTemplateLabelsOverride(override, meta);
    var rs := new ReplicaSet(if sel.labels.Some? || |sel.shorthand| > 0 then Some(sel) else None, kept, hasSpec);
    return Some(rs), order;
  }

  lemma NothingParses()
    ensures Parse("") == Ok(None)
  {
  }

  method RevertRSSelector(selector: Option<RSSelector>, templateLabels: GoMap)
    returns (r: Outcome<(Option<KubeSelector>, GoMap)>)
    ensures r == LowerSelector(selector, templateLabels)
  {
    if selector.None? {
      return Ok((None, None));
    }
    var sel := selector.value;
    if |sel.shorthand| > 0 {
      var parsed := ParseLabelSelector(sel.shorthand);
      if !parsed.Ok? {
        return parsed.PropagateFailure();
      }
      if parsed.value.None? {
        return Crash;
      }
      var labelSelector := KubeSelector(Found(parsed.value.value.matchLabels), parsed.value.value.matchExpressions);
      if |Entries(templateLabels)| == 0 && |labelSelector.matchExpressions| == 0 {
        return Ok((Some(labelSelector), labelSelector.matchLabels));
      }
      return Ok((Some(labelSelector), templateLabels));
    }
    if |Entries(templateLabels)| == 0 {
      return Ok((Some(KubeSelector(sel.labels, [])), sel.labels));
    }
    return Ok((Some(KubeSelector(sel.labels, [])), templateLabels));
  }

  /** Converting to Kubernetes rewrites the template metadata of the Koki replica set on the way. */
  method RevertReplicaSet(rs: ReplicaSet) returns (r: Outcome<KubeWorkload>)
    modifies rs`templateMetadata, rs.templateMetadata
    ensures match Lower(old(rs.Value()), rs.hasSpec)
            case Ok((kube, meta)) => r == Ok(kube) && rs.Value() == KokiState(old(rs.selector), meta)
            case Fail => r.Fail?
            case Crash => r.Crash?
    ensures r.Ok? ==>
      var before := old(if rs.templateMetadata == null then ZERO_META else rs.templateMetadata.Value());
      var own := Entries(before.labels) != map[];
      && (r.value.selector.Some? <==> old(rs.selector).Some?)
      && (old(rs.selector).Some? && old(rs.selector).value.shorthand == "" ==>
          r.value.selector == Some(KubeSelector(old(rs.selector).value.labels, [])))
      && (old(rs.selector).Some? && old(rs.selector).value.shorthand != "" ==>
          Parse(old(rs.selector).value.shorthand) == Ok(Some(Plain(r.value.selector.value))))
      && var labels :=
           if r.value.selector.None? then None
           else if own || r.value.selector.value.matchExpressions != [] then before.labels
           else r.value.selector.value.matchLabels;
         r.value.template == before.(
           labels := if Entries(labels) == map[] then None else labels,
           annotations := if Entries(before.annotations) == map[] then None else before.annotations)
         && var left := before.(labels := if Entries(labels) == map[] then None else labels);
         MetaValue(rs.templateMetadata) == if left == ZERO_META then None else Some(left)
  {
    hide Parse;
    var templateLabels: GoMap := None;
    if rs.templateMetadata != null {
      templateLabels := rs.templateMetadata.labels;
    }
    var lowered := RevertRSSelector(rs.selector, templateLabels);
    if !lowered.Ok? {
      return lowered.PropagateFailure();
    }
    var (sel, override) := lowered.value;
    var meta := ApplyTemplateLabelsOverride(override, rs.templateMetadata);
    rs.templateMetadata := meta;
    if meta == null && !rs.hasSpec {
      return Fail;
    }
    return Ok(KubeWorkload(sel, if meta != null then LowerMeta(meta.Value()) else ZERO_META));
  }

  // ----- There and back -----

  function Effective(w: KubeWorkload): LabelSelector {
    EffectiveOf(w.selector, w.template.labels)
  }

  /** When the template keeps its labels: always without a selector; with the nil map of labels and
      nothing else as a selector, only if there are none to lose; otherwise, unless there are none
      and the selector holds nothing but (at least one) equality, which is then pushed down. */
  predicate LabelsSafe(w: KubeWorkload) {
    w.selector.Some? ==>
      var sel, labels := w.selector.value, Entries(w.template.labels);
      if sel.matchExpressions != [] then labels != map[] || !OnlyEqualities(Plain(sel))
      else if sel.matchLabels.None? then labels == map[]
      else labels != map[] || sel.matchLabels.value == map[]
  }

  /** Kubernetes to Koki to Kubernetes, for any workload whose selector has expressions, if at all,
      only well-formed: the exact conditions under which the template labels and the selector survive. */
  lemma KubeKokiKube(w: KubeWorkload, order: seq<string>)
    requires w.selector.Some? ==> Enumerates(order, Entries(w.selector.value.matchLabels).Keys)
    requires w.selector.Some? && w.selector.value.matchExpressions != [] ==> WellFormedSelector(Plain(w.selector.value))
    ensures Hoist(w, order).Ok? && Lower(Hoist(w, order).value, true).Ok?
    ensures var back := Lower(Hoist(w, order).value, true).value.0;
      && (Entries(back.template.labels) == Entries(w.template.labels) <==> LabelsSafe(w))
      && (Equivalent(Effective(w), Effective(back)) <==>
          || w.selector.None? || w.selector.value.matchExpressions == []
          || NoConflict(Effective(w)) || Hopeless(Reread(Effective(w))))
      && (w.selector.Some? ==>
          Effective(back) == if w.selector.value.matchExpressions == [] then Effective(w) else Reread(Effective(w)))
      && back.template.(labels := None, annotations := None) == w.template.(labels := None, annotations := None)
      && Entries(back.template.annotations) == Entries(w.template.annotations)
  {
    if w.selector.Some? && w.selector.value.matchExpressions != [] {
      ShorthandRoundTrip(w, order);
    } else if w.selector.None? {
      assert Effective(Lower(Hoist(w, order).value, true).value.0) == Effective(w);
    } else {
      assert Effective(Lower(Hoist(w, order).value, true).value.0) == Effective(w);
    }
  }

  lemma ShorthandRoundTrip(w: KubeWorkload, order: seq<string>)
    requires w.selector.Some? && Enumerates(order, Entries(w.selector.value.matchLabels).Keys)
    requires w.selector.value.matchExpressions != [] && WellFormedSelector(Plain(w.selector.value))
    ensures Hoist(w, order).Ok? && Lower(Hoist(w, order).value, true).Ok?
    ensures var back := Lower(Hoist(w, order).value, true).value.0;
      && (Entries(back.template.labels) == Entries(w.template.labels) <==> LabelsSafe(w))
      && (Equivalent(Effective(w), Effective(back)) <==> NoConflict(Effective(w)) || Hopeless(Reread(Effective(w))))
      && Effective(back) == Reread(Effective(w))
      && back.template.(labels := None, annotations := None) == w.template.(labels := None, annotations := None)
      && Entries(back.template.annotations) == Entries(w.template.annotations)
  {
    var sel := Plain(w.selector.value);
    PrintingKeepsMeaning(sel, order);
    PushedDown(sel, order);
    hide WellFormedSelector, Enumerates, Unparse, Equivalent, NoConflict, Selects, OnlyEqualities, Reread, Hopeless;
    assert Parse("") == Ok(None);
    hide Parse;
    var text := Unparse(sel, order).value;
    var again := Parse(text).value.value;
    var back := Lower(Hoist(w, order).value, true).value.0;
    assert Plain(KubeSelector(Found(again.matchLabels), again.matchExpressions)) == again;
    assert Effective(back) == again;
  }

  /** A printed selector comes back as labels alone, and at least one, exactly when it holds
      nothing but equalities. */
  lemma PushedDown(sel: LabelSelector, order: seq<string>)
    requires WellFormedSelector(sel) && Enumerates(order, sel.matchLabels.Keys) && sel.matchExpressions != []
    ensures Unparse(sel, order).Ok? && Parse(Unparse(sel, order).value).Ok? && Parse(Unparse(sel, order).value).value.Some?
    ensures var again := Parse(Unparse(sel, order).value).value.value;
      && (again.matchExpressions == [] <==> OnlyEqualities(sel))
      && (again.matchExpressions == [] ==> again.matchLabels != map[])
  {
    ReparsesTo(sel, order);
    GatheredKinds(ConditionsOf(sel, order));
    ConditionKinds(sel, order);
  }

  lemma ConditionKinds(sel: LabelSelector, order: seq<string>)
    requires forall k :: k in order ==> k in sel.matchLabels
    ensures OnlyEqualities(sel) <==> forall c :: c in ConditionsOf(sel, order) ==> c.Label?
    ensures sel.matchExpressions != [] ==> ConditionsOf(sel, order) != []
  {
    var labels, read := LabelConditions(sel.matchLabels, order), ReadAll(sel.matchExpressions);
    assert forall c :: c in ConditionsOf(sel, order) <==> c in labels || c in read;
    assert forall i :: 0 <= i < |read| ==> read[i] == ReadAs(sel.matchExpressions[i]) && read[i] in read;
    assert forall i :: 0 <= i < |read| ==> sel.matchExpressions[i] in sel.matchExpressions;
  }

  lemma {:induction false} GatheredKinds(cs: seq<Condition>)
    ensures Gather(cs).matchExpressions == [] <==> forall c :: c in cs ==> c.Label?
    ensures Gather(cs) == EMPTY_SELECTOR <==> cs == []
  {
    GatherNothing(cs);
    if cs != [] {
      var before, last := cs[..|cs| - 1], cs[|cs| - 1];
      GatheredKinds(before);
      assert cs == before + [last];
      assert last in cs;
    }
  }

  /** Converting the same Koki replica set again, after the first conversion has rewritten its
      metadata, gives the same Kubernetes workload and leaves the metadata alone. */
  lemma LowerTwice(k: KokiState, hasSpec: bool)
    requires Lower(k, hasSpec).Ok?
    ensures Lower(k.(template := Lower(k, hasSpec).value.1), hasSpec) == Lower(k, hasSpec)
  {
  }

  /** Labels are pushed down only into a template that has none, and only from a selector of nothing but
      labels; its pods then carry exactly what is selected. Template labels stay as they are. */
  lemma PushDown(sel: RSSelector, templateLabels: GoMap)
    requires LowerSelector(Some(sel), templateLabels).Ok?
    ensures var (found, labels) := LowerSelector(Some(sel), templateLabels).value;
      && found.Some?
      && (Entries(templateLabels) != map[] ==> labels == templateLabels)
      && (Entries(templateLabels) == map[] ==>
          if found.value.matchExpressions == [] then Minimal(Plain(found.value), Entries(labels)) else Entries(labels) == map[])
  {
  }

  /** Selected, and by nothing less. */
  ghost predicate Minimal(sel: LabelSelector, labels: Labels) {
    Selects(sel, labels) && forall other :: Selects(sel, other) ==> forall k :: k in labels ==> k in other && other[k] == labels[k]
  }

  /** What a Koki object is lowered to survives any further round trip unchanged, whatever its
      shorthand is made of, unless its selector is there but holds nothing, not even an empty map. */
  lemma LoweredIsStable(k: KokiState, order: seq<string>)
    requires Lower(k, true).Ok?
    requires var w := Lower(k, true).value.0; w.selector.Some? ==> Enumerates(order, Entries(w.selector.value.matchLabels).Keys)
    ensures var w := Lower(k, true).value.0;
      && Hoist(w, order).Ok? && Lower(Hoist(w, order).value, true).Ok?
      && (Lower(Hoist(w, order).value, true).value.0 == w <==> w.selector != Some(KubeSelector(None, [])))
  {
    hide Parse, Unparse, Enumerates;
    var w := Lower(k, true).value.0;
    if k.selector.Some? && k.selector.value.shorthand != "" {
      ShorthandStable(k.selector.value.shorthand, order);
    }
  }

  lemma ShorthandStable(text: string, order: seq<string>)
    requires text != "" && Parse(text).Ok? && Parse(text).value.Some?
    requires Enumerates(order, Parse(text).value.value.matchLabels.Keys)
    ensures var sel := Parse(text).value.value;
      && Entries(Found(sel.matchLabels)) == sel.matchLabels
      && Unparse(sel, order).Ok? && Unparse(sel, order).value != "" && Parse(Unparse(sel, order).value) == Ok(Some(sel))
      && (sel.matchExpressions == [] ==> sel.matchLabels != map[])
  {
    ParsedTextIsStable(text, order);
    GatherNothing(ParseSegments(Split(text, "&")).value);
  }

  /** An empty selector beside labelled pods is not undone: a nil map of labels is dropped by the
      hoisting, and the way back then forgets the template's labels, too. */
  lemma EmptySelectorLosesLabels(labels: Labels)
    requires labels != map[]
    ensures var w := KubeWorkload(Some(KubeSelector(None, [])), ZERO_META.(labels := Some(labels)));
      && Hoist(w, []).Ok? && Lower(Hoist(w, []).value, true) == Ok((KubeWorkload(None, ZERO_META), None))
      && !LabelsSafe(w)
  {
  }
}
