/** Parsing and printing selectors: what survives. */
module SelectorRoundTrips {
  import opened Outcomes
  import opened Text
  import opened Selectors
  import opened SelectorMeaning

  /** The text of a condition. */
  function ConditionText(c: Condition): Outcome<string> {
    match c
    case Label(k, v) => Ok(LabelText(k, v))
    case Require(r) => RequirementText(r)
  }

  /** `text` is one segment that reads as `c`. */
  ghost predicate Reads(text: string, c: Condition) {
    text != "" && '&' !in text && ParseSegment(text) == Ok(c)
  }

  /** A segment that parses is printed back as it was. */
  lemma SegmentText(seg: string)
    requires ParseSegment(seg).Ok?
    ensures ConditionText(ParseSegment(seg).value) == Ok(seg) && seg != ""
  {
    var expr := ParseExpr(seg, LABEL_OPS).value;
    if expr.Some? {
      ExprSpelling(seg, LABEL_OPS);
      var e := expr.value;
      assert |e.values| == 1 ==> Join(e.values, ",") == e.values[0];
    } else if seg[0] == '!' {
      assert seg == "!" + seg[1..];
    }
  }

  // ----- Texts of a whole selector -----

  function LabelTexts(labels: Labels, order: seq<string>): (texts: seq<string>)
    requires forall k :: k in order ==> k in labels
    ensures |texts| == |order| && forall i :: 0 <= i < |order| ==> texts[i] == LabelText(order[i], labels[order[i]])
  {
    seq(|order|, i requires 0 <= i < |order| => LabelText(order[i], labels[order[i]]))
  }

  /** The pieces of a printed selector. */
  ghost predicate Spells(sel: LabelSelector, order: seq<string>, texts: seq<string>)
    requires forall k :: k in order ==> k in sel.matchLabels
  {
    && |texts| == |order| + |sel.matchExpressions|
    && (forall i :: 0 <= i < |order| ==> texts[i] == LabelText(order[i], sel.matchLabels[order[i]]))
    && forall i :: 0 <= i < |sel.matchExpressions| ==> RequirementText(sel.matchExpressions[i]) == Ok(texts[|order| + i])
  }

  lemma {:induction false} JoinSnoc(texts: seq<string>, last: string)
    requires texts != []
    ensures Join(texts + [last], "&") == Join(texts, "&") + "&" + last
  {
    var all := texts + [last];
    if |texts| > 1 {
      JoinSnoc(texts[1..], last);
      assert all[1..] == texts[1..] + [last];
      assert texts[0] + "&" + (Join(texts[1..], "&") + "&" + last) == (texts[0] + "&" + Join(texts[1..], "&")) + "&" + last;
    } else {
      assert all[1..] == [last] && texts == [texts[0]];
      assert Join(all, "&") == texts[0] + "&" + Join([last], "&");
    }
  }

  lemma JoinExtend(texts: seq<string>, last: string)
    requires forall t :: t in texts ==> t != ""
    ensures Join(texts + [last], "&") == Extend(Join(texts, "&"), last)
  {
    if texts == [] {
      assert [] + [last] == [last];
    } else {
      JoinSnoc(texts, last);
      assert texts[0] in texts;
      assert |Join(texts, "&")| > 0;
    }
  }

  lemma {:induction false} LabelsJoined(labels: Labels, order: seq<string>)
    requires forall k :: k in order ==> k in labels
    ensures UnparseLabels(labels, order) == Join(LabelTexts(labels, order), "&")
  {
    if order != [] {
      var before, k := order[..|order| - 1], order[|order| - 1];
      LabelsJoined(labels, before);
      var texts := LabelTexts(labels, before);
      assert forall t :: t in texts ==> t != "";
      JoinExtend(texts, LabelText(k, labels[k]));
      assert LabelTexts(labels, order) == texts + [LabelText(k, labels[k])];
    }
  }

  lemma {:induction false} RequirementsJoined(labelTexts: seq<string>, reqs: seq<Requirement>, texts: seq<string>)
    requires |texts| == |reqs| && forall i :: 0 <= i < |reqs| ==> RequirementText(reqs[i]) == Ok(texts[i])
    requires forall t :: t in labelTexts + texts ==> t != ""
    ensures UnparseRequirements(Join(labelTexts, "&"), reqs) == Ok(Join(labelTexts + texts, "&"))
  {
    if reqs == [] {
      assert labelTexts + texts == labelTexts;
    } else {
      var n := |reqs| - 1;
      assert forall t :: t in labelTexts + texts[..n] ==> t in labelTexts + texts;
      RequirementsJoined(labelTexts, reqs[..n], texts[..n]);
      JoinExtend(labelTexts + texts[..n], texts[n]);
      assert labelTexts + texts == (labelTexts + texts[..n]) + [texts[n]];
    }
  }

  /** Printing joins the non-empty texts of the labels, in map order, and of the requirements. */
  lemma UnparseJoins(sel: LabelSelector, order: seq<string>, texts: seq<string>)
    requires forall k :: k in order ==> k in sel.matchLabels
    requires Spells(sel, order, texts) && forall t :: t in texts ==> t != ""
    ensures Unparse(sel, order) == Ok(Join(texts, "&"))
  {
    LabelsJoined(sel.matchLabels, order);
    var labelTexts := LabelTexts(sel.matchLabels, order);
    assert texts == labelTexts + texts[|order|..];
    RequirementsJoined(labelTexts, sel.matchExpressions, texts[|order|..]);
  }

  /** Parsing joined segments gathers what each of them reads as. */
  lemma {:induction false} SegmentsRead(texts: seq<string>, cs: seq<Condition>)
    requires |texts| == |cs| && forall i :: 0 <= i < |texts| ==> ParseSegment(texts[i]) == Ok(cs[i])
    ensures ParseSegments(texts) == Ok(cs)
  {
    if texts != [] {
      var n := |texts| - 1;
      SegmentsRead(texts[..n], cs[..n]);
      assert cs == cs[..n] + [cs[n]];
    }
  }

  lemma ParseJoined(texts: seq<string>, cs: seq<Condition>)
    requires texts != [] && |texts| == |cs| && forall i :: 0 <= i < |texts| ==> Reads(texts[i], cs[i])
    ensures Parse(Join(texts, "&")) == Ok(Some(Gather(cs)))
  {
    assert forall t :: t in texts ==> '&' !in t && t != "";
    SplitJoin(texts, '&');
    SegmentsRead(texts, cs);
    assert Join(texts, "&") != "" by {
      if |texts| > 1 {
        assert Join(texts, "&") == texts[0] + "&" + Join(texts[1..], "&");
      }
    }
  }

  // ----- Gathering -----

  /** The conditions of a printed selector: its labels in map order, then its requirements as read. */
  function LabelConditions(labels: Labels, order: seq<string>): (cs: seq<Condition>)
    requires forall k :: k in order ==> k in labels
    ensures |cs| == |order| && forall i :: 0 <= i < |order| ==> cs[i] == Label(order[i], labels[order[i]])
  {
    seq(|order|, i requires 0 <= i < |order| => Label(order[i], labels[order[i]]))
  }

  lemma {:induction false} GatherLabels(labels: Labels, order: seq<string>)
    requires forall k :: k in order ==> k in labels
    ensures Gather(LabelConditions(labels, order)).matchExpressions == []
    ensures forall k :: k in Gather(LabelConditions(labels, order)).matchLabels <==> k in order
    ensures forall k :: k in order ==> Gather(LabelConditions(labels, order)).matchLabels[k] == labels[k]
  {
    if order != [] {
      var before, k := order[..|order| - 1], order[|order| - 1];
      GatherLabels(labels, before);
      GatherSnoc(LabelConditions(labels, before), Label(k, labels[k]));
      assert LabelConditions(labels, order) == LabelConditions(labels, before) + [Label(k, labels[k])];
      assert order == before + [k];
    }
  }

  lemma GatherBack(sel: LabelSelector, order: seq<string>)
    requires Enumerates(order, sel.matchLabels.Keys)
    ensures Gather(LabelConditions(sel.matchLabels, order) + Requires(sel.matchExpressions)) == sel
  {
    hide Gather;
    var labelled := Gather(LabelConditions(sel.matchLabels, order));
    assert labelled == LabelSelector(sel.matchLabels, []) by {
      GatherLabels(sel.matchLabels, order);
      assert labelled.matchLabels == sel.matchLabels;
    }
    GatherRequirements(LabelConditions(sel.matchLabels, order), sel.matchExpressions);
    assert [] + sel.matchExpressions == sel.matchExpressions;
  }

  lemma GatherSnoc(cs: seq<Condition>, c: Condition)
    ensures Gather(cs + [c]) == AddCondition(Gather(cs), c)
  {
    assert (cs + [c])[..|cs|] == cs;
  }

  lemma {:induction false} GatherRequirements(start: seq<Condition>, reqs: seq<Requirement>)
    ensures Gather(start + Requires(reqs)) == Gather(start).(matchExpressions := Gather(start).matchExpressions + reqs)
  {
    hide Gather;
    if reqs == [] {
      assert start + Requires(reqs) == start;
      assert Gather(start).matchExpressions + [] == Gather(start).matchExpressions;
    } else {
      var before, last := reqs[..|reqs| - 1], reqs[|reqs| - 1];
      GatherRequirements(start, before);
      GatherSnoc(start + Requires(before), Require(last));
      assert Requires(reqs) == Requires(before) + [Require(last)];
      assert start + Requires(reqs) == (start + Requires(before)) + [Require(last)];
      assert Gather(start).matchExpressions + reqs == (Gather(start).matchExpressions + before) + [last];
    }
  }

  function Requires(reqs: seq<Requirement>): (cs: seq<Condition>)
    ensures |cs| == |reqs| && forall i :: 0 <= i < |reqs| ==> cs[i] == Require(reqs[i])
  {
    seq(|reqs|, i requires 0 <= i < |reqs| => Require(reqs[i]))
  }

  // ----- First result: text that was parsed once is stable -----

  /** Every part of the selector is read back as itself. */
  ghost predicate ReadsBack(sel: LabelSelector) {
    && (forall k :: k in sel.matchLabels ==> Reads(LabelText(k, sel.matchLabels[k]), Label(k, sel.matchLabels[k])))
    && forall r :: r in sel.matchExpressions ==> RequirementText(r).Ok? && Reads(RequirementText(r).value, Require(r))
  }

  lemma {:induction false} GatheredReadsBack(segs: seq<string>)
    requires ParseSegments(segs).Ok? && forall s :: s in segs ==> '&' !in s
    ensures ReadsBack(Gather(ParseSegments(segs).value))
  {
    if segs != [] {
      var n := |segs| - 1;
      GatheredReadsBack(segs[..n]);
      SegmentText(segs[n]);
      var cs := ParseSegments(segs).value;
      assert cs[..|cs| - 1] == ParseSegments(segs[..n]).value;
    }
  }

  lemma {:induction false} GatherNothing(cs: seq<Condition>)
    ensures Gather(cs) == EMPTY_SELECTOR <==> cs == []
  {
    if cs != [] {
      var before := Gather(cs[..|cs| - 1]);
      match cs[|cs| - 1]
      case Label(k, v) => assert k in Gather(cs).matchLabels;
      case Require(r) =>
    }
  }

  /** A selector whose parts read back is printed to text that parses to the same selector. */
  lemma ReadBackRoundTrip(sel: LabelSelector, order: seq<string>)
    requires ReadsBack(sel) && Enumerates(order, sel.matchLabels.Keys) && sel != EMPTY_SELECTOR
    ensures Unparse(sel, order).Ok? && Parse(Unparse(sel, order).value) == Ok(Some(sel))
  {
    hide Gather, RequirementText, ParseSegment, Parse, Unparse;
    var reqs := sel.matchExpressions;
    var reqTexts := seq(|reqs|, i requires 0 <= i < |reqs| => RequirementTextOf(sel, i));
    var texts := LabelTexts(sel.matchLabels, order) + reqTexts;
    var cs := LabelConditions(sel.matchLabels, order) + Requires(reqs);
    forall i | 0 <= i < |texts|
      ensures Reads(texts[i], cs[i])
    {
      if i < |order| {
        assert order[i] in order;
      } else {
        assert reqs[i - |order|] in reqs;
      }
    }
    UnparseJoins(sel, order, texts);
    GatherBack(sel, order);
    GatherNothing(cs);
    ParseJoined(texts, cs);
  }

  ghost function RequirementTextOf(sel: LabelSelector, i: nat): string
    requires ReadsBack(sel) && i < |sel.matchExpressions|
  {
    assert sel.matchExpressions[i] in sel.matchExpressions;
    RequirementText(sel.matchExpressions[i]).value
  }

  /** For every accepted string, with no restriction on its characters: parsing, printing in any
      order of the label map, and parsing again changes nothing more. */
  lemma ParsedTextIsStable(s: string, order: seq<string>)
    requires Parse(s).Ok? && Parse(s).value.Some?
    requires Enumerates(order, Parse(s).value.value.matchLabels.Keys)
    ensures var sel := Parse(s).value.value;
      Unparse(sel, order).Ok? && Parse(Unparse(sel, order).value) == Ok(Some(sel))
  {
    var segs := Split(s, "&");
    PiecesLackSeparator(s, "&");
    forall x | x in segs
      ensures '&' !in x
    {
      ContainsChar(x, '&');
    }
    GatheredReadsBack(segs);
    GatherNothing(ParseSegments(segs).value);
    ReadBackRoundTrip(Parse(s).value.value, order);
  }

  // ----- Second result: printing keeps what a selector selects -----

  /** How a requirement is read back: single-valued `In` becomes a label. */
  function ReadAs(r: Requirement): Condition {
    if r.op == In && |r.values| == 1 then Label(r.key, r.values[0]) else Require(r)
  }

  lemma ReadAsMeans(r: Requirement, labels: Labels)
    ensures Meets(labels, ReadAs(r)) <==> Satisfies(labels, r)
  {
    if r.op == In && |r.values| == 1 {
      assert forall v :: v in r.values <==> v == r.values[0];
    }
  }

  lemma {:induction false} TokenLacks(s: string, sep: string)
    requires IsToken(s) && sep != "" && sep[0] in "&=!,:<>"
    ensures !Contains(s, sep)
  {
    if s != "" {
      assert s[0] in s;
      assert forall c :: c in s[1..] ==> c in s;
      TokenLacks(s[1..], sep);
    }
  }

  /** Tokens joined by commas hold no operator and split back. */
  lemma {:induction false} TokenListLacks(values: seq<string>, sep: string)
    requires forall v :: v in values ==> IsToken(v)
    requires sep != "" && sep[0] in "&=!:<>"
    ensures !Contains(Join(values, ","), sep)
  {
    if |values| == 1 {
      TokenLacks(values[0], sep);
    } else if |values| > 1 {
      TokenListLacks(values[1..], sep);
      TokenThenComma(values[0], Join(values[1..], ","), sep);
    }
  }

  lemma {:induction false} TokenThenComma(a: string, rest: string, sep: string)
    requires sep != "" && sep[0] in "&=!:<>"
    requires IsToken(a) && !Contains(rest, sep)
    ensures !Contains(a + "," + rest, sep)
  {
    var s := a + "," + rest;
    if a == "" {
      assert s[1..] == rest;
    } else {
      assert a[0] in a;
      assert forall c :: c in a[1..] ==> c in a;
      assert s[1..] == a[1..] + "," + rest;
      TokenThenComma(a[1..], rest, sep);
    }
  }

  lemma ValuesSplit(values: seq<string>)
    requires values != [] && forall v :: v in values ==> IsToken(v)
    ensures ParseValues(Join(values, ",")) == values
  {
    forall v | v in values
      ensures ',' !in v
    {
      assert IsToken(v);
    }
    SplitJoin(values, ',');
  }

  /** `key op values` splits at its operator and nowhere else. */
  lemma OpSplits(key: string, op: string, values: seq<string>)
    requires IsToken(key) && values != [] && forall v :: v in values ==> IsToken(v)
    requires op == "=" || op == "!=" || op == ">" || op == "<"
    ensures ParseOp(key + op + Join(values, ","), op) == Ok(Some(Expr(key, op, values)))
  {
    var rest := Join(values, ",");
    forall i {:trigger key[i..]} | 0 <= i < |key|
      ensures !(op <= key[i..] + op + rest)
    {
      assert (key[i..] + op + rest)[0] == key[i] && key[i] in key;
    }
    SplitAtFirst(key, op, rest);
    TokenListLacks(values, op);
    SplitWithout(rest, op);
    ValuesSplit(values);
  }

  /** Text in which an operator starts nowhere. */
  lemma {:induction false} LacksOther(key: string, op: string, rest: string, other: string)
    requires other != "" && other[0] in "&=!,:<>"
    requires IsToken(key) && !Contains(op + rest, other)
    ensures !Contains(key + op + rest, other)
  {
    var s := key + op + rest;
    if key == "" {
      assert s == op + rest;
    } else {
      assert key[0] in key;
      assert forall c :: c in key[1..] ==> c in key;
      assert s[1..] == key[1..] + op + rest;
      LacksOther(key[1..], op, rest, other);
    }
  }

  /** An operator that is no part of `op` does not occur in `key op values`. */
  lemma OtherOpAbsent(key: string, op: string, values: seq<string>, other: string)
    requires IsToken(key) && forall v :: v in values ==> IsToken(v)
    requires |op| == 1 && op[0] in "=<>" && other != "" && other[0] in "&=!<>:" && other[0] != op[0]
    ensures !Contains(key + op + Join(values, ","), other)
  {
    var rest := Join(values, ",");
    TokenListLacks(values, other);
    assert (op + rest)[1..] == rest;
    LacksOther(key, op, rest, other);
  }

  /** A well-formed requirement is spelled by one segment that reads as it should. */
  lemma RequirementReads(r: Requirement)
    requires WellFormedRequirement(r)
    ensures RequirementText(r).Ok? && Reads(RequirementText(r).value, ReadAs(r))
  {
    var text := RequirementText(r).value;
    TokenLacks(r.key, "&");
    ContainsChar(r.key, '&');
    match r.op
    case In =>
      OtherOpAbsent(r.key, "=", r.values, "!=");
      OtherOpAbsent(r.key, "=", r.values, "&");
      ContainsChar(text, '&');
      OpSplits(r.key, "=", r.values);
      assert ParseExpr(text, LABEL_OPS[1..]) == Ok(Some(Expr(r.key, "=", r.values)));
    case NotIn =>
      OpSplits(r.key, "!=", r.values);
      NotEqualLacksAmpersand(r.key, r.values);
    case Exists =>
      NoOperator(r.key);
      assert r.key[0] in r.key;
    case DoesNotExist =>
      BangHasNoOperator(r.key);
  }

  lemma NotEqualLacksAmpersand(key: string, values: seq<string>)
    requires IsToken(key) && forall v :: v in values ==> IsToken(v)
    ensures '&' !in key + "!=" + Join(values, ",")
  {
    TokenListLacks(values, "&");
    ContainsChar(Join(values, ","), '&');
    assert '&' !in key;
  }

  lemma NoOperator(key: string)
    requires IsToken(key)
    ensures ParseExpr(key, LABEL_OPS) == Ok(None)
  {
    TokenLacks(key, "!=");
    TokenLacks(key, "=");
    assert ParseExpr(key, LABEL_OPS[1..]) == Ok(None);
  }

  lemma BangHasNoOperator(key: string)
    requires IsToken(key)
    ensures ParseExpr("!" + key, LABEL_OPS) == Ok(None)
    ensures ParseSegment("!" + key) == Ok(Require(Requirement(key, DoesNotExist, [])))
  {
    var s := "!" + key;
    TokenLacks(key, "!=");
    TokenLacks(key, "=");
    assert s[1..] == key;
    assert key != "" ==> key[0] in key;
    assert !("!=" <= s);
    assert ParseExpr(s, LABEL_OPS[1..]) == Ok(None);
  }

  lemma LabelReads(k: string, v: string)
    requires k != "" && IsToken(k) && IsToken(v)
    ensures Reads(LabelText(k, v), Label(k, v))
  {
    RequirementReads(Requirement(k, In, [v]));
  }

  function ReadAll(reqs: seq<Requirement>): (cs: seq<Condition>)
    ensures |cs| == |reqs| && forall i :: 0 <= i < |reqs| ==> cs[i] == ReadAs(reqs[i])
  {
    seq(|reqs|, i requires 0 <= i < |reqs| => ReadAs(reqs[i]))
  }

  /** The conditions a printed selector is read back as. */
  function ConditionsOf(sel: LabelSelector, order: seq<string>): seq<Condition>
    requires forall k :: k in order ==> k in sel.matchLabels
  {
    LabelConditions(sel.matchLabels, order) + ReadAll(sel.matchExpressions)
  }

  function TextOf(r: Requirement): string
    requires WellFormedRequirement(r)
  {
    RequirementReads(r);
    RequirementText(r).value
  }

  /** Printing a well-formed selector and parsing the text gathers its conditions. */
  lemma ReparsesTo(sel: LabelSelector, order: seq<string>)
    requires WellFormedSelector(sel) && Enumerates(order, sel.matchLabels.Keys) && sel != EMPTY_SELECTOR
    ensures Unparse(sel, order).Ok?
    ensures Parse(Unparse(sel, order).value) == Ok(Some(Gather(ConditionsOf(sel, order))))
  {
    var reqs := sel.matchExpressions;
    assert forall i :: 0 <= i < |reqs| ==> reqs[i] in reqs;
    var texts := LabelTexts(sel.matchLabels, order) + seq(|reqs|, i requires 0 <= i < |reqs| => TextOf(reqs[i]));
    var cs := ConditionsOf(sel, order);
    forall i | 0 <= i < |texts|
      ensures Reads(texts[i], cs[i])
    {
      if i < |order| {
        assert order[i] in order;
        LabelReads(order[i], sel.matchLabels[order[i]]);
      } else {
        RequirementReads(reqs[i - |order|]);
      }
    }
    UnparseJoins(sel, order, texts);
    assert sel.matchLabels != map[] ==> exists k :: k in sel.matchLabels;
    assert texts != [] by {
      if sel.matchExpressions == [] {
        assert sel.matchLabels != map[];
        var k :| k in sel.matchLabels;
        assert k in order;
      }
    }
    ParseJoined(texts, cs);
  }

  /** No key is required to equal two different values. */
  ghost predicate Compatible(cs: seq<Condition>) {
    forall c, d :: c in cs && d in cs && c.Label? && d.Label? && c.key == d.key ==> c.value == d.value
  }

  /** Without contradicting labels, gathering loses no condition. */
  lemma {:induction false} GatherMeans(cs: seq<Condition>, labels: Labels)
    requires Compatible(cs)
    ensures Selects(Gather(cs), labels) <==> forall c :: c in cs ==> Meets(labels, c)
    ensures forall k :: k in Gather(cs).matchLabels ==> Label(k, Gather(cs).matchLabels[k]) in cs
  {
    if cs != [] {
      var before, last := cs[..|cs| - 1], cs[|cs| - 1];
      assert cs == before + [last];
      GatherMeans(before, labels);
      var sel, all := Gather(before), Gather(cs);
      match last
      case Label(k, v) =>
        assert k in sel.matchLabels ==> Label(k, sel.matchLabels[k]) in cs;
        assert Selects(all, labels) <==> Selects(sel, labels) && Meets(labels, last) by {
          if Selects(all, labels) {
            assert all.matchLabels[k] == v;
            forall j | j in sel.matchLabels
              ensures j in labels && labels[j] == sel.matchLabels[j]
            {
              assert j in all.matchLabels;
            }
          }
        }
      case Require(r) =>
        assert forall x :: x in all.matchExpressions <==> x in sel.matchExpressions || x == r;
        assert Selects(all, labels) <==> Selects(sel, labels) && Meets(labels, last);
    }
  }

  lemma ConditionsMean(sel: LabelSelector, order: seq<string>, labels: Labels)
    requires Enumerates(order, sel.matchLabels.Keys)
    ensures Selects(sel, labels) <==> forall c :: c in ConditionsOf(sel, order) ==> Meets(labels, c)
  {
    var cs := ConditionsOf(sel, order);
    forall k | k in sel.matchLabels
      ensures Label(k, sel.matchLabels[k]) in cs
    {
      var i :| 0 <= i < |order| && order[i] == k;
      assert cs[i] == Label(k, sel.matchLabels[k]);
    }
    forall r | r in sel.matchExpressions
      ensures ReadAs(r) in cs && (Meets(labels, ReadAs(r)) <==> Satisfies(labels, r))
    {
      var i :| 0 <= i < |sel.matchExpressions| && sel.matchExpressions[i] == r;
      assert cs[|order| + i] == ReadAs(r);
      ReadAsMeans(r, labels);
    }
    forall c | c in cs
      ensures (exists k :: k in sel.matchLabels && c == Label(k, sel.matchLabels[k])) ||
              (exists r :: r in sel.matchExpressions && c == ReadAs(r))
    {
      var i :| 0 <= i < |cs| && cs[i] == c;
      if i < |order| {
        assert order[i] in order;
      } else {
        assert sel.matchExpressions[i - |order|] in sel.matchExpressions;
      }
    }
  }

  /** `sel` requires key `k` to equal `v`. */
  predicate Demands(sel: LabelSelector, k: string, v: string) {
    (k in sel.matchLabels && sel.matchLabels[k] == v) || Requirement(k, In, [v]) in sel.matchExpressions
  }

  /** No key carries two different single-value equality conditions. */
  ghost predicate NoConflict(sel: LabelSelector) {
    forall k, v, w :: Demands(sel, k, v) && Demands(sel, k, w) ==> v == w
  }

  predicate OnlyEqualities(sel: LabelSelector) {
    forall r :: r in sel.matchExpressions ==> r.op == In && |r.values| == 1
  }

  lemma DemandsAreLabels(sel: LabelSelector, order: seq<string>, k: string, v: string)
    requires Enumerates(order, sel.matchLabels.Keys)
    ensures Demands(sel, k, v) <==> Label(k, v) in ConditionsOf(sel, order)
  {
    var cs := ConditionsOf(sel, order);
    if Label(k, v) in cs {
      var i :| 0 <= i < |cs| && cs[i] == Label(k, v);
      if i < |order| {
        assert order[i] in order;
      } else {
        var r := sel.matchExpressions[i - |order|];
        assert r in sel.matchExpressions && r.values == [r.values[0]];
      }
    }
    if k in sel.matchLabels && sel.matchLabels[k] == v {
      var i :| 0 <= i < |order| && order[i] == k;
      assert cs[i] == Label(k, v);
    }
    if Requirement(k, In, [v]) in sel.matchExpressions {
      var i :| 0 <= i < |sel.matchExpressions| && sel.matchExpressions[i] == Requirement(k, In, [v]);
      assert cs[|order| + i] == Label(k, v);
    }
  }

  lemma ConflictSelectsNothing(sel: LabelSelector, labels: Labels)
    requires !NoConflict(sel)
    ensures !Selects(sel, labels)
  {
    var k, v, w :| Demands(sel, k, v) && Demands(sel, k, w) && v != w;
    DemandBinds(sel, labels, k, v);
    DemandBinds(sel, labels, k, w);
  }

  lemma DemandBinds(sel: LabelSelector, labels: Labels, k: string, v: string)
    requires Demands(sel, k, v)
    ensures Selects(sel, labels) ==> k in labels && labels[k] == v
  {
    if Selects(sel, labels) && Requirement(k, In, [v]) in sel.matchExpressions {
      assert Satisfies(labels, Requirement(k, In, [v]));
    }
  }

  // ----- The selector that comes back -----

  predicate IsEquality(r: Requirement) {
    r.op == In && |r.values| == 1
  }

  /** The labels, overwritten by the equalities in turn: the last one on a key counts. */
  function Overwritten(labels: Labels, reqs: seq<Requirement>): Labels {
    if reqs == [] then labels
    else
      var before, last := Overwritten(labels, reqs[..|reqs| - 1]), reqs[|reqs| - 1];
      if IsEquality(last) then before[last.key := last.values[0]] else before
  }

  function Others(reqs: seq<Requirement>): (others: seq<Requirement>)
    ensures forall r :: r in others <==> r in reqs && !IsEquality(r)
  {
    if reqs == [] then []
    else
      var before, last := Others(reqs[..|reqs| - 1]), reqs[|reqs| - 1];
      assert reqs == reqs[..|reqs| - 1] + [last];
      if IsEquality(last) then before else before + [last]
  }

  /** What a printed selector is read back as. */
  function Reread(sel: LabelSelector): LabelSelector {
    LabelSelector(Overwritten(sel.matchLabels, sel.matchExpressions), Others(sel.matchExpressions))
  }

  lemma {:induction false} GatherReread(labels: Labels, reqs: seq<Requirement>, order: seq<string>)
    requires Enumerates(order, labels.Keys)
    ensures Gather(ConditionsOf(LabelSelector(labels, reqs), order)) == Reread(LabelSelector(labels, reqs))
  {
    if reqs == [] {
      GatherBack(LabelSelector(labels, []), order);
      assert ReadAll([]) == Requires([]) == [];
    } else {
      var before, last := reqs[..|reqs| - 1], reqs[|reqs| - 1];
      GatherReread(labels, before, order);
      var cs := ConditionsOf(LabelSelector(labels, before), order);
      assert ReadAll(reqs) == ReadAll(before) + [ReadAs(last)];
      assert ConditionsOf(LabelSelector(labels, reqs), order) == cs + [ReadAs(last)];
      hide Gather, ConditionsOf, LabelConditions, ReadAll;
      GatherSnoc(cs, ReadAs(last));
    }
  }

  lemma ConflictAndNothing(sel: LabelSelector, again: LabelSelector)
    requires !NoConflict(sel)
    ensures Equivalent(sel, again) <==> SelectsNothing(again)
  {
    forall labels
      ensures !Selects(sel, labels)
    {
      ConflictSelectsNothing(sel, labels);
    }
  }

  /** Printing a well-formed selector and parsing it again gives the same result in every order of the
      label map: equalities turn into labels, the last one on a key overwriting the others. That
      keeps what the selector selects exactly if no key carries two different single-value
      equality conditions, or else the requirements that are left contradict the last ones, or
      each other. */
  lemma PrintingKeepsMeaning(sel: LabelSelector, order: seq<string>)
    requires WellFormedSelector(sel) && Enumerates(order, sel.matchLabels.Keys) && sel != EMPTY_SELECTOR
    ensures Unparse(sel, order).Ok? && Parse(Unparse(sel, order).value) == Ok(Some(Reread(sel)))
    ensures Equivalent(sel, Reread(sel)) <==> NoConflict(sel) || Hopeless(Reread(sel))
    ensures OnlyEqualities(sel) ==> !Hopeless(Reread(sel))
  {
    ReparsesTo(sel, order);
    GatherReread(sel.matchLabels, sel.matchExpressions, order);
    assert LabelSelector(sel.matchLabels, sel.matchExpressions) == sel;
    if NoConflict(sel) {
      NoConflictKeepsMeaning(sel, order);
    } else {
      ConflictAndNothing(sel, Reread(sel));
      hide Reread, WellFormedRequirement, Hopeless, SelectsNothing;
      RereadKnown(sel);
      HopelessExactly(Reread(sel));
    }
  }

  lemma RereadKnown(sel: LabelSelector)
    requires WellFormedSelector(sel)
    ensures KnownOperators(Reread(sel))
  {
  }

  lemma NoConflictKeepsMeaning(sel: LabelSelector, order: seq<string>)
    requires Enumerates(order, sel.matchLabels.Keys) && NoConflict(sel)
    ensures Equivalent(sel, Gather(ConditionsOf(sel, order)))
  {
    var cs := ConditionsOf(sel, order);
    forall c, d | c in cs && d in cs && c.Label? && d.Label? && c.key == d.key
      ensures c.value == d.value
    {
      DemandsAreLabels(sel, order, c.key, c.value);
      DemandsAreLabels(sel, order, d.key, d.value);
    }
    forall labels
      ensures Selects(sel, labels) <==> Selects(Gather(cs), labels)
    {
      ConditionsMean(sel, order, labels);
      GatherMeans(cs, labels);
    }
  }

  /** The conflicting case is real: like `a=1` together with `a in (2)`, which selects nothing, but is
      printed as a=1&a=2 and read back as the label 2 alone. */
  lemma ConflictIsLost(k: string, v: string, w: string)
    requires k != "" && IsToken(k) && IsToken(v) && IsToken(w) && v != w
    ensures var sel, again := LabelSelector(map[k := v], [Requirement(k, In, [w])]), LabelSelector(map[k := w], []);
      && WellFormedSelector(sel) && Enumerates([k], sel.matchLabels.Keys)
      && Unparse(sel, [k]).Ok? && Parse(Unparse(sel, [k]).value) == Ok(Some(again))
      && !Equivalent(sel, again)
  {
    var sel, again := LabelSelector(map[k := v], [Requirement(k, In, [w])]), LabelSelector(map[k := w], []);
    hide IsToken, Parse, Unparse, Equivalent;
    assert sel.matchExpressions[0] == Requirement(k, In, [w]);
    assert Demands(sel, k, v) && Demands(sel, k, w);
    PrintingKeepsMeaning(sel, [k]);
    assert Overwritten(sel.matchLabels, sel.matchExpressions) == again.matchLabels;
    assert Others(sel.matchExpressions) == again.matchExpressions;
  }
}
