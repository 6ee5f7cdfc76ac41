/** Pod affinity and anti-affinity in both directions. */
module PodAffinities {
  import opened Outcomes
  import opened Text
  import opened Selectors
  import opened SelectorMeaning
  import opened SelectorRoundTrips
  import opened LabelExprs
  import opened Affinity
  import Numerals

  type PodItem = Item<PodTerm>

  /** Sorted labels, then requirements. */
  ghost function PodExprs(sel: Option<LabelSelector>): Outcome<seq<string>> {
    if sel.None? then Ok([])
    else
      var reqs :- ExprTexts(sel.value.matchExpressions, LabelOpText);
      Ok(LabelExprsOf(sel.value.matchLabels) + reqs)
  }

  ghost function EntryOf(exprs: seq<string>, item: PodItem): PodEntry {
    PodEntry(TermText(exprs, item.strength), item.term.topologyKey, item.term.namespaces)
  }

  /** An item that selects by nothing adds nothing. */
  ghost function Entries(items: seq<PodItem>): Outcome<seq<PodEntry>> {
    if items == [] then Ok([])
    else
      var before :- Entries(items[..|items| - 1]);
      var last := items[|items| - 1];
      var exprs :- PodExprs(last.term.selector);
      Ok(if exprs == [] then before else before + [EntryOf(exprs, last)])
  }

  lemma {:induction false} EntriesStuck(items: seq<PodItem>, prefix: seq<PodItem>)
    requires prefix <= items && !Entries(prefix).Ok?
    ensures Entries(items) == Entries(prefix)
    decreases |items|
  {
    if prefix != items {
      assert prefix <= items[..|items| - 1];
      EntriesStuck(items[..|items| - 1], prefix);
    }
  }

  lemma NoEntries()
    ensures Entries([]) == Ok([]) && Items<PodTerm>([], []) == [] && RevertPods([]) == Ok([])
    ensures Hards<PodTerm>([]) == [] && Softs<PodTerm>([]) == []
  {
  }

  lemma EntriesSnoc(items: seq<PodItem>, item: PodItem)
    ensures Entries(items + [item]) ==
            match (Entries(items), PodExprs(item.term.selector))
            case (Ok(before), Ok(exprs)) => Ok(if exprs == [] then before else before + [EntryOf(exprs, item)])
            case (Ok(before), failed) => failed.PropagateFailure()
            case (failed, _) => failed
  {
    assert (items + [item])[..|items|] == items;
  }

  lemma {:induction false} EntriesConcat(a: seq<PodItem>, b: seq<PodItem>)
    requires Entries(a).Ok?
    ensures Entries(a + b) == match Entries(b) { case Ok(es) => Ok(Entries(a).value + es) case failed => failed }
    decreases |b|
  {
    hide Entries, PodExprs, EntryOf;
    NoEntries();
    if b == [] {
      assert a + b == a;
      assert Entries(a).value + [] == Entries(a).value;
    } else {
      var before, last := b[..|b| - 1], b[|b| - 1];
      EntriesConcat(a, before);
      assert b == before + [last] && a + b == (a + before) + [last];
      EntriesSnoc(before, last);
      EntriesSnoc(a + before, last);
      if Entries(before).Ok? {
        assert forall es :: Entries(a).value + (Entries(before).value + es) == Entries(a).value + Entries(before).value + es;
      }
    }
  }

  /** What the two term converters do with one selector. */
  method ConvertSelector(sel: Option<LabelSelector>) returns (r: Outcome<seq<string>>)
    ensures r == PodExprs(sel)
  {
    if sel.None? {
      return Ok([]);
    }
    var exprs := ConvertMatchLabelsToExprs(sel.value.matchLabels);
    var reqs := ConvertExprs(sel.value.matchExpressions, LabelOpText);
    if !reqs.Ok? {
      return reqs;
    }
    return Ok(exprs + reqs.value);
  }

  method ConvertPodAffinityTerms(podHardAffinity: seq<PodTerm>) returns (r: Outcome<seq<PodEntry>>)
    ensures r == Entries(Items(podHardAffinity, []))
  {
    hide PodExprs, TermText, Entries, Items;
    NoEntries();
    var affinity: seq<PodEntry> := [];
    for i := 0 to |podHardAffinity|
      invariant Entries(Items(podHardAffinity[..i], [])) == Ok(affinity)
    {
      var term := podHardAffinity[i];
      var exprs := ConvertSelector(term.selector);
      HardStep(podHardAffinity, i);
      EntriesSnoc(Items(podHardAffinity[..i], []), Item(Hard, term));
      if !exprs.Ok? {
        HardPrefix(podHardAffinity, [], i + 1);
        EntriesStuck(Items(podHardAffinity, []), Items(podHardAffinity[..i + 1], []));
        return exprs.PropagateFailure();
      }
      if |exprs.value| > 0 {
        affinity := affinity + [PodEntry(TermText(exprs.value, Hard), term.topologyKey, term.namespaces)];
      }
    }
    assert podHardAffinity[..|podHardAffinity|] == podHardAffinity;
    return Ok(affinity);
  }

  method ConvertPodWeightedAffinityTerms(podSoftAffinity: seq<Weighted<PodTerm>>) returns (r: Outcome<seq<PodEntry>>)
    ensures r == Entries(Items([], podSoftAffinity))
  {
    hide PodExprs, TermText, Entries, Items;
    NoEntries();
    var affinity: seq<PodEntry> := [];
    for i := 0 to |podSoftAffinity|
      invariant Entries(Items([], podSoftAffinity[..i])) == Ok(affinity)
    {
      var weight, term := podSoftAffinity[i].weight, podSoftAffinity[i].term;
      var exprs := ConvertSelector(term.selector);
      SoftStep([], podSoftAffinity, i);
      EntriesSnoc(Items([], podSoftAffinity[..i]), Item(Soft(weight), term));
      if !exprs.Ok? {
        SoftPrefix([], podSoftAffinity, i + 1);
        EntriesStuck(Items([], podSoftAffinity), Items([], podSoftAffinity[..i + 1]));
        return exprs.PropagateFailure();
      }
      if |exprs.value| > 0 {
        affinity := affinity + [PodEntry(TermText(exprs.value, Soft(weight)), term.topologyKey, term.namespaces)];
      }
    }
    assert podSoftAffinity[..|podSoftAffinity|] == podSoftAffinity;
    return Ok(affinity);
  }

  function PodItems(pa: PodAffinity): seq<PodItem> {
    Items(pa.required, pa.preferred)
  }

  lemma {:induction false} ItemsConcat(required: seq<PodTerm>, preferred: seq<Weighted<PodTerm>>)
    ensures Items(required, preferred) == Items(required, []) + Items([], preferred)
    decreases |preferred|
  {
    if preferred != [] {
      ItemsConcat(required, preferred[..|preferred| - 1]);
    }
  }

  /** convertPodAffinity, and convertPodAntiAffinity but for the field that is filled. */
  method ConvertPodAffinity(pa: Option<PodAffinity>) returns (r: Outcome<seq<PodEntry>>)
    ensures r == if pa.None? then Ok([]) else Entries(PodItems(pa.value))
  {
    if pa.None? {
      return Ok([]);
    }
    hide Entries, Items;
    var hard := ConvertPodAffinityTerms(pa.value.required);
    ItemsConcat(pa.value.required, pa.value.preferred);
    if !hard.Ok? {
      EntriesStuck(PodItems(pa.value), Items(pa.value.required, []));
      return hard;
    }
    var soft := ConvertPodWeightedAffinityTerms(pa.value.preferred);
    EntriesConcat(Items(pa.value.required, []), Items([], pa.value.preferred));
    if !soft.Ok? {
      return soft;
    }
    return Ok(hard.value + soft.value);
  }

  // ----- Back -----

  function RevertPods(entries: seq<PodEntry>): Outcome<seq<PodItem>> {
    if entries == [] then Ok([])
    else
      var before :- RevertPods(entries[..|entries| - 1]);
      var last :- RevertPod(entries[|entries| - 1]);
      Ok(before + [last])
  }

  lemma {:induction false} RevertStuck(entries: seq<PodEntry>, i: nat)
    requires i <= |entries| && !RevertPods(entries[..i]).Ok?
    ensures RevertPods(entries) == RevertPods(entries[..i])
    decreases |entries|
  {
    if i == |entries| {
      assert entries[..i] == entries;
    } else {
      assert entries[..|entries| - 1][..i] == entries[..i];
      RevertStuck(entries[..|entries| - 1], i);
    }
  }

  lemma RevertStep(entries: seq<PodEntry>, i: nat)
    requires i < |entries| && RevertPods(entries[..i]).Ok?
    ensures RevertPods(entries[..i + 1]) ==
            match RevertPod(entries[i])
            case Ok(item) => Ok(RevertPods(entries[..i]).value + [item])
            case Fail => Fail
            case Crash => Crash
    ensures RevertPod(entries[i]).Ok? ==>
      var items, item := RevertPods(entries[..i + 1]).value, RevertPod(entries[i]).value;
      && Hards(items) == Hards(RevertPods(entries[..i]).value) + (if item.strength.Hard? then [item.term] else [])
      && Softs(items) == Softs(RevertPods(entries[..i]).value) + if item.strength.Soft? then [Weighted(item.strength.weight, item.term)] else []
  {
    hide RevertPod;
    assert entries[..i + 1][..i] == entries[..i];
    if RevertPod(entries[i]).Ok? {
      var items := RevertPods(entries[..i + 1]).value;
      assert items[..|items| - 1] == RevertPods(entries[..i]).value;
    }
  }

  /** Hard and soft terms end up in separate lists, each in the order of the affinities. */
  method SplitAndRevertPodAffinity(affinities: seq<PodEntry>)
    returns (r: Outcome<(seq<PodTerm>, seq<Weighted<PodTerm>>)>)
    ensures r == match RevertPods(affinities)
                 case Ok(items) => Ok((Hards(items), Softs(items)))
                 case Fail => Fail
                 case Crash => Crash
  {
    hide RevertPods, Hards, Softs, Parse;
    var hard: seq<PodTerm> := [];
    var soft: seq<Weighted<PodTerm>> := [];
    NoEntries();
    assert affinities[..0] == [];
    for i := 0 to |affinities|
      invariant RevertPods(affinities[..i]).Ok?
      invariant hard == Hards(RevertPods(affinities[..i]).value)
      invariant soft == Softs(RevertPods(affinities[..i]).value)
    {
      RevertStep(affinities, i);
      var segs := Split(affinities[i].affinity, ":");
      var selector := ParseLabelSelector(segs[0]);
      if !selector.Ok? {
        RevertStuck(affinities, i + 1);
        return selector.PropagateFailure();
      }
      var term := PodTerm(selector.value, affinities[i].namespaces, affinities[i].topology);
      if |segs| < 2 {
        hard := hard + [term];
      } else {
        if segs[1] != "soft" {
          RevertStuck(affinities, i + 1);
          return Fail;
        }
        var weight: int32 := 1;
        if |segs| >= 3 {
          var parsed := Numerals.ParseInt(segs[2], 10, 32);
          if parsed.None? {
            RevertStuck(affinities, i + 1);
            return Fail;
          }
          Numerals.ParsedFits(segs[2]);
          weight := parsed.value as int32;
        }
        soft := soft + [Weighted(weight, term)];
      }
    }
    assert affinities[..|affinities|] == affinities;
    return Ok((hard, soft));
  }

  /** revertPodAffinity and revertPodAntiAffinity. */
  function Collected(items: seq<PodItem>): Option<PodAffinity> {
    if items == [] then None else Some(PodAffinity(Hards(items), Softs(items)))
  }

  // ----- There and back -----

  /** The terms that select by something. */
  function Kept(items: seq<PodItem>): seq<PodItem> {
    if items == [] then []
    else
      var before, last := Kept(items[..|items| - 1]), items[|items| - 1];
      if last.term.selector.None? || last.term.selector.value == EMPTY_SELECTOR then before else before + [last]
  }

  predicate WellFormedItems(items: seq<PodItem>) {
    forall item :: item in items && item.term.selector.Some? ==> WellFormedSelector(item.term.selector.value)
  }

  /** `back` is `item` up to the way its selector is written: topology, namespaces and strength are the
      same, but for weight 0, which becomes 1; and the selector is the one that printing and
      parsing leave, which selects the same pods unless it contradicted itself and no longer does. */
  ghost predicate Survives(item: PodItem, back: PodItem)
    requires item.term.selector.Some?
  {
    && back.strength == (if item.strength == Soft(0) then Soft(1) else item.strength)
    && back.term.namespaces == item.term.namespaces && back.term.topologyKey == item.term.topologyKey
    && back.term.selector == Some(Reread(item.term.selector.value))
    && (Equivalent(item.term.selector.value, back.term.selector.value) <==>
        NoConflict(item.term.selector.value) || Hopeless(back.term.selector.value))
  }

  lemma RequirementLacksColon(r: Requirement)
    requires WellFormedRequirement(r)
    ensures RequirementText(r).Ok? && RequirementText(r).value != "" && ':' !in RequirementText(r).value
  {
    RequirementReads(r);
    TokenListLacks(r.values, ":");
    ContainsChar(Join(r.values, ","), ':');
  }

  lemma {:induction false} RequirementTexts(reqs: seq<Requirement>)
    requires forall r :: r in reqs ==> WellFormedRequirement(r)
    ensures ExprTexts(reqs, LabelOpText).Ok?
    ensures forall i :: 0 <= i < |reqs| ==> RequirementText(reqs[i]) == Ok(ExprTexts(reqs, LabelOpText).value[i])
    ensures forall t :: t in ExprTexts(reqs, LabelOpText).value ==> t != "" && ':' !in t
  {
    hide WellFormedRequirement, SpellRequirement;
    if reqs != [] {
      var before, last := reqs[..|reqs| - 1], reqs[|reqs| - 1];
      assert reqs == before + [last];
      RequirementTexts(before);
      RequirementLacksColon(last);
    }
  }

  lemma LabelTextsClean(labels: Labels, order: seq<string>)
    requires forall k :: k in order ==> k in labels
    requires forall k :: k in labels ==> IsToken(k) && IsToken(labels[k])
    ensures forall t :: t in LabelTexts(labels, order) ==> t != "" && ':' !in t
  {
  }

  /** Text of a pod term: the selector as printed in one order of its labels. */
  lemma PodExprsSpell(sel: LabelSelector) returns (order: seq<string>)
    requires WellFormedSelector(sel)
    ensures Enumerates(order, sel.matchLabels.Keys)
    ensures PodExprs(Some(sel)).Ok? && (PodExprs(Some(sel)).value == [] <==> sel == EMPTY_SELECTOR)
    ensures Unparse(sel, order) == Ok(Join(PodExprs(Some(sel)).value, "&"))
    ensures ':' !in Join(PodExprs(Some(sel)).value, "&")
  {
    hide WellFormedRequirement, LabelExprsOf, ExprTexts, RequirementText, Unparse, IsToken;
    order := ExprsOrder(sel.matchLabels);
    RequirementTexts(sel.matchExpressions);
    LabelTextsClean(sel.matchLabels, order);
    var exprs := PodExprs(Some(sel)).value;
    UnparseJoins(sel, order, exprs);
    JoinLacksColon(exprs);
    if exprs == [] {
      assert |LabelExprsOf(sel.matchLabels)| == |sel.matchLabels|;
    }
  }

  lemma LastRoundTrip(item: PodItem)
    requires item.term.selector.Some? ==> WellFormedSelector(item.term.selector.value)
    ensures PodExprs(item.term.selector).Ok?
    ensures var exprs := PodExprs(item.term.selector).value;
      && (exprs == [] <==> item.term.selector.None? || item.term.selector.value == EMPTY_SELECTOR)
      && (exprs != [] ==> EntryOf(exprs, item).affinity != "" && RevertPod(EntryOf(exprs, item)).Ok? &&
                          Survives(item, RevertPod(EntryOf(exprs, item)).value))
  {
    if item.term.selector.Some? {
      var sel := item.term.selector.value;
      var order := PodExprsSpell(sel);
      var exprs := PodExprs(Some(sel)).value;
      if exprs != [] {
        hide WellFormedSelector, Unparse, Parse, Equivalent, NoConflict, Strengths, Mark;
        PrintingKeepsMeaning(sel, order);
        MarkReads(Join(exprs, "&"), item.strength, 1);
        assert Parse("") == Ok(None) by {
          NothingParsed();
        }
      }
    }
  }

  lemma NothingParsed()
    ensures Parse("") == Ok(None)
  {
  }

  lemma RevertSnoc(entries: seq<PodEntry>, e: PodEntry)
    requires RevertPods(entries).Ok? && RevertPod(e).Ok?
    ensures RevertPods(entries + [e]) == Ok(RevertPods(entries).value + [RevertPod(e).value])
  {
    assert (entries + [e])[..|entries|] == entries;
  }

  /** Every pod term that selects by something comes back, in order, meaning the same. */
  lemma {:induction false} PodsRoundTrip(items: seq<PodItem>)
    requires WellFormedItems(items)
    ensures Entries(items).Ok? && RevertPods(Entries(items).value).Ok?
    ensures forall e :: e in Entries(items).value ==> e.affinity != ""
    ensures |RevertPods(Entries(items).value).value| == |Kept(items)|
    ensures forall i :: 0 <= i < |Kept(items)| ==>
      Kept(items)[i].term.selector.Some? && Survives(Kept(items)[i], RevertPods(Entries(items).value).value[i])
  {
    hide WellFormedSelector, PodExprs, EntryOf, RevertPod, Entries, RevertPods, Survives;
    NoEntries();
    if items != [] {
      var before, last := items[..|items| - 1], items[|items| - 1];
      assert items == before + [last];
      PodsRoundTrip(before);
      LastRoundTrip(last);
      EntriesSnoc(before, last);
      var exprs := PodExprs(last.term.selector).value;
      if exprs != [] {
        RevertSnoc(Entries(before).value, EntryOf(exprs, last));
      }
    }
  }
}
