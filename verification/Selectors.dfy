/** The selector mini-language of parser/expressions. */
module Selectors {
  import opened Outcomes
  import opened Text

  /** An expression as split at its operator. */
  datatype Expr = Expr(key: string, op: string, values: seq<string>)

  function ParseValues(s: string): seq<string> {
    Split(s, ",")
  }

  function ParseOp(s: string, op: string): (r: Outcome<Option<Expr>>)
    requires op != ""
    ensures !r.Crash?
  {
    if !Contains(s, op) then Ok(None)
    else
      var segs := Split(s, op);
      if |segs| != 2 then Fail else Ok(Some(Expr(segs[0], op, ParseValues(segs[1]))))
  }

  /** The first operator that occurs decides. */
  function ParseExpr(s: string, ops: seq<string>): (r: Outcome<Option<Expr>>)
    requires "" !in ops
    ensures !r.Crash?
  {
    if ops == [] then Ok(None)
    else
      var x :- ParseOp(s, ops[0]);
      if x.Some? then Ok(x) else ParseExpr(s, ops[1..])
  }

  /** A parsed expression is spelled by exactly the string it came from. */
  lemma {:induction false} ExprSpelling(s: string, ops: seq<string>)
    requires "" !in ops && ParseExpr(s, ops).Ok? && ParseExpr(s, ops).value.Some?
    ensures var e := ParseExpr(s, ops).value.value;
      e.op in ops && s == e.key + e.op + Join(e.values, ",") && e.values != []
  {
    var x := ParseOp(s, ops[0]);
    if x.value.Some? {
      var segs := Split(s, ops[0]);
      JoinSplit(s, ops[0]);
      JoinSplit(segs[1], ",");
      assert segs == [segs[0], segs[1]];
      assert Join(segs, ops[0]) == segs[0] + ops[0] + Join(segs[1..], ops[0]);
    } else {
      ExprSpelling(s, ops[1..]);
    }
  }

  /** metav1.LabelSelectorOperator and v1.NodeSelectorOperator; `Unset` is the empty string. */
  datatype Operator = Unset | In | NotIn | Exists | DoesNotExist | Gt | Lt | Unknown(name: string)

  datatype Requirement = Requirement(key: string, op: Operator, values: seq<string>)

  type Labels = map<string, string>

  datatype LabelSelector = LabelSelector(matchLabels: Labels, matchExpressions: seq<Requirement>)

  /** ConvertOperatorLabelSelector. */
  function LabelOpText(op: Operator): Outcome<string> {
    match op
    case Unset => Ok("")
    case In => Ok("=")
    case NotIn => Ok("!=")
    case Exists => Ok("")
    case DoesNotExist => Ok("")
    case _ => Fail
  }

  function SpellRequirement(r: Requirement, op: string): string {
    if r.op == Exists then r.key
    else if r.op == DoesNotExist then "!" + r.key
    else r.key + op + Join(r.values, ",")
  }

  function RequirementText(r: Requirement): Outcome<string> {
    var op :- LabelOpText(r.op);
    Ok(SpellRequirement(r, op))
  }

  // ----- ParseLabelSelector -----

  /** One &-segment: a label to match, or a requirement. */
  datatype Condition = Label(key: string, value: string) | Require(r: Requirement)

  const LABEL_OPS: seq<string> := ["!=", "="]

  /** `seg[0]` panics on an empty segment. */
  function ParseSegment(seg: string): Outcome<Condition> {
    var expr :- ParseExpr(seg, LABEL_OPS);
    match expr
    case None =>
      if seg == "" then Crash
      else if seg[0] == '!' then Ok(Require(Requirement(seg[1..], DoesNotExist, [])))
      else Ok(Require(Requirement(seg, Exists, [])))
    case Some(e) =>
      if e.op == "=" && |e.values| == 1 then Ok(Label(e.key, e.values[0]))
      else Ok(Require(Requirement(e.key, if e.op == "=" then In else NotIn, e.values)))
  }

  const EMPTY_SELECTOR := LabelSelector(map[], [])

  /** A later label of the same key overwrites an earlier one. */
  function AddCondition(sel: LabelSelector, c: Condition): LabelSelector {
    match c
    case Label(k, v) => sel.(matchLabels := sel.matchLabels[k := v])
    case Require(r) => sel.(matchExpressions := sel.matchExpressions + [r])
  }

  function Gather(cs: seq<Condition>): LabelSelector {
    if cs == [] then EMPTY_SELECTOR else AddCondition(Gather(cs[..|cs| - 1]), cs[|cs| - 1])
  }

  function ParseSegments(segs: seq<string>): (r: Outcome<seq<Condition>>)
    ensures r.Ok? ==> |r.value| == |segs|
  {
    if segs == [] then Ok([])
    else
      var cs :- ParseSegments(segs[..|segs| - 1]);
      var c :- ParseSegment(segs[|segs| - 1]);
      Ok(cs + [c])
  }

  function Parse(s: string): Outcome<Option<LabelSelector>> {
    if s == "" then Ok(None)
    else
      var cs :- ParseSegments(Split(s, "&"));
      Ok(Some(Gather(cs)))
  }

  method ParseLabelSelector(s: string) returns (r: Outcome<Option<LabelSelector>>)
    ensures r == Parse(s)
  {
    if |s| == 0 {
      return Ok(None);
    }
    var labels: Labels := map[];
    var reqs: seq<Requirement> := [];
    var segs := Split(s, "&");
    for i := 0 to |segs|
      invariant ParseSegments(segs[..i]).Ok?
      invariant Gather(ParseSegments(segs[..i]).value) == LabelSelector(labels, reqs)
    {
      var seg := segs[i];
      SegmentsSnoc(segs, i);
      var expr := ParseExpr(seg, ["!=", "="]);
      if !expr.Ok? {
        NoRecovery(segs, i + 1);
        return Fail;
      }
      if expr.value.None? {
        if seg == "" {
          NoRecovery(segs, i + 1);
          return Crash;
        }
        if seg[0] == '!' {
          reqs := reqs + [Requirement(seg[1..], DoesNotExist, [])];
        } else {
          reqs := reqs + [Requirement(seg, Exists, [])];
        }
      } else {
        var e := expr.value.value;
        var op := if e.op == "=" then In else NotIn;
        if op == In && |e.values| == 1 {
          labels := labels[e.key := e.values[0]];
        } else {
          reqs := reqs + [Requirement(e.key, op, e.values)];
        }
      }
    }
    assert segs[..|segs|] == segs;
    return Ok(Some(LabelSelector(labels, reqs)));
  }

  lemma SegmentsSnoc(segs: seq<string>, i: nat)
    requires i < |segs| && ParseSegments(segs[..i]).Ok?
    ensures ParseSegments(segs[..i + 1]) ==
            match ParseSegment(segs[i])
            case Ok(c) => Ok(ParseSegments(segs[..i]).value + [c])
            case Fail => Fail
            case Crash => Crash
    ensures ParseSegment(segs[i]).Ok? ==>
      Gather(ParseSegments(segs[..i + 1]).value) == AddCondition(Gather(ParseSegments(segs[..i]).value), ParseSegment(segs[i]).value)
  {
    assert segs[..i + 1][..i] == segs[..i];
    if ParseSegment(segs[i]).Ok? {
      var cs := ParseSegments(segs[..i]).value;
      assert (cs + [ParseSegment(segs[i]).value])[..|cs|] == cs;
    }
  }

  lemma {:induction false} NoRecovery(segs: seq<string>, i: nat)
    requires i <= |segs| && !ParseSegments(segs[..i]).Ok?
    ensures ParseSegments(segs) == ParseSegments(segs[..i]).PropagateFailure()
    decreases |segs|
  {
    if i == |segs| {
      assert segs[..i] == segs;
    } else {
      assert segs[..|segs| - 1][..i] == segs[..i];
      NoRecovery(segs[..|segs| - 1], i);
    }
  }

  /** Segment `i` is empty, and those before it parse. */
  ghost predicate PanicAt(segs: seq<string>, i: nat) {
    i < |segs| && segs[i] == "" && ParseSegments(segs[..i]).Ok?
  }

  /** Parsing panics exactly at an empty segment behind segments that parse. */
  lemma {:induction false} SegmentsPanic(segs: seq<string>)
    ensures ParseSegments(segs).Crash? <==> exists i :: PanicAt(segs, i)
    decreases |segs|
  {
    if segs != [] {
      var n := |segs| - 1;
      SegmentsPanic(segs[..n]);
      SegmentPanics(segs[n]);
      forall i: nat | i < n
        ensures PanicAt(segs, i) <==> PanicAt(segs[..n], i)
      {
        assert segs[..n][..i] == segs[..i];
      }
      assert PanicAt(segs, n) <==> segs[n] == "" && ParseSegments(segs[..n]).Ok?;
      hide ParseSegment, PanicAt;
    }
  }

  lemma SegmentPanics(seg: string)
    ensures ParseSegment(seg).Crash? <==> seg == ""
  {
    assert ParseExpr("", LABEL_OPS[1..]) == Ok(None);
  }

  /** ParseLabelSelector panics exactly on an empty segment between ampersands, or before the first or
      after the last, unless a segment before it is an error. */
  lemma ParsePanics(s: string)
    ensures var segs := Split(s, "&"); Parse(s).Crash? <==> s != "" && exists i :: PanicAt(segs, i)
  {
    SegmentsPanic(Split(s, "&"));
  }

  /** For one, the text "&". */
  lemma AmpersandPanics()
    ensures Parse("&").Crash?
  {
    assert "&"[1..] == "";
    assert Split("&", "&") == ["", ""];
    assert PanicAt(["", ""], 0) by {
      assert ["", ""][..0] == [];
    }
    ParsePanics("&");
  }

  // ----- UnparseLabelSelector -----

  /** The first expression is not preceded by an ampersand, nor is one that follows only empty ones. */
  function Extend(selector: string, expr: string): string {
    if |selector| > 0 then selector + "&" + expr else expr
  }

  function LabelText(k: string, v: string): string {
    k + "=" + v
  }

  /** The labels in the order a map iteration happened to give. */
  function UnparseLabels(labels: Labels, order: seq<string>): string
    requires forall k :: k in order ==> k in labels
  {
    if order == [] then ""
    else
      var k := order[|order| - 1];
      Extend(UnparseLabels(labels, order[..|order| - 1]), LabelText(k, labels[k]))
  }

  function UnparseRequirements(start: string, reqs: seq<Requirement>): Outcome<string> {
    if reqs == [] then Ok(start)
    else
      var before :- UnparseRequirements(start, reqs[..|reqs| - 1]);
      var expr :- RequirementText(reqs[|reqs| - 1]);
      Ok(Extend(before, expr))
  }

  function Unparse(sel: LabelSelector, order: seq<string>): Outcome<string>
    requires forall k :: k in order ==> k in sel.matchLabels
  {
    UnparseRequirements(UnparseLabels(sel.matchLabels, order), sel.matchExpressions)
  }

  method UnparseLabelSelector(sel: Option<LabelSelector>) returns (r: Outcome<string>, ghost order: seq<string>)
    ensures sel.None? ==> r == Ok("")
    ensures sel.Some? ==> Enumerates(order, sel.value.matchLabels.Keys) && r == Unparse(sel.value, order)
  {
    order := [];
    if sel.None? {
      return Ok(""), [];
    }
    var selector := "";
    var labels := sel.value.matchLabels;
    var todo := labels.Keys;
    while todo != {}
      invariant todo <= labels.Keys && Enumerates(order, labels.Keys - todo)
      invariant selector == UnparseLabels(labels, order)
    {
      var k :| k in todo;
      var kokiExpr := LabelText(k, labels[k]);
      if |selector| > 0 {
        selector := selector + "&" + kokiExpr;
      } else {
        selector := kokiExpr;
      }
      assert (order + [k])[..|order|] == order;
      order := order + [k];
      todo := todo - {k};
    }
    var reqs := sel.value.matchExpressions;
    for i := 0 to |reqs|
      invariant UnparseRequirements(UnparseLabels(labels, order), reqs[..i]) == Ok(selector)
    {
      assert reqs[..i + 1][..i] == reqs[..i];
      var op := LabelOpText(reqs[i].op);
      if !op.Ok? {
        RequirementsNoRecovery(UnparseLabels(labels, order), reqs, i + 1);
        return Fail, order;
      }
      selector := Extend(selector, SpellRequirement(reqs[i], op.value));
    }
    assert reqs[..|reqs|] == reqs;
    return Ok(selector), order;
  }

  lemma {:induction false} RequirementsNoRecovery(start: string, reqs: seq<Requirement>, i: nat)
    requires i <= |reqs| && UnparseRequirements(start, reqs[..i]).Fail?
    ensures UnparseRequirements(start, reqs).Fail?
    decreases |reqs|
  {
    if i == |reqs| {
      assert reqs[..i] == reqs;
    } else {
      assert reqs[..|reqs| - 1][..i] == reqs[..i];
      RequirementsNoRecovery(start, reqs[..|reqs| - 1], i);
    }
  }
}
