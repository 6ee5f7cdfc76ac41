/** Affinity in both directions: Kubernetes terms as strings of the mini-language and back. */
module Affinity {
  import opened Outcomes
  import opened Text
  import opened Selectors
  import opened SelectorMeaning
  import opened SelectorRoundTrips
  import Numerals

  type int32 = Numerals.int32

  // ----- Kubernetes side -----

  datatype NodeTerm = NodeTerm(matchExpressions: seq<Requirement>, matchFields: seq<Requirement>)

  datatype PodTerm = PodTerm(selector: Option<LabelSelector>, namespaces: seq<string>, topologyKey: string)

  /** v1.PreferredSchedulingTerm and v1.WeightedPodAffinityTerm. */
  datatype Weighted<T> = Weighted(weight: int32, term: T)

  /** `required` is None when the pointer to the node selector is nil. */
  datatype NodeAffinity = NodeAffinity(required: Option<seq<NodeTerm>>, preferred: seq<Weighted<NodeTerm>>)

  /** PodAffinity and PodAntiAffinity have the same shape. */
  datatype PodAffinity = PodAffinity(required: seq<PodTerm>, preferred: seq<Weighted<PodTerm>>)

  datatype KubeAffinity = KubeAffinity(node: Option<NodeAffinity>, pod: Option<PodAffinity>, antiPod: Option<PodAffinity>)

  // ----- Koki side -----

  /** types.Affinity. */
  datatype Koki = Koki(node: string, pod: string, antiPod: string, topology: string, namespaces: seq<string>)

  /** The PodAffinity of the reverse converter: the fields that belong to a pod term. */
  datatype PodEntry = PodEntry(affinity: string, topology: string, namespaces: seq<string>)

  // ----- Terms to text -----

  /** convertOperator. */
  function NodeOpText(op: Operator): Outcome<string> {
    match op
    case Unset => Ok("")
    case In => Ok("=")
    case NotIn => Ok("!=")
    case Exists => Ok("")
    case DoesNotExist => Ok("")
    case Gt => Ok(">")
    case Lt => Ok("<")
    case Unknown(_) => Fail
  }

  type OpText = Operator -> Outcome<string>

  function ExprTexts(reqs: seq<Requirement>, opText: OpText): (r: Outcome<seq<string>>)
    ensures r.Ok? ==> |r.value| == |reqs|
  {
    if reqs == [] then Ok([])
    else
      var before :- ExprTexts(reqs[..|reqs| - 1], opText);
      var last := reqs[|reqs| - 1];
      var op :- opText(last.op);
      Ok(before + [SpellRequirement(last, op)])
  }

  /** The loop over MatchExpressions that all converters share. */
  method ConvertExprs(reqs: seq<Requirement>, opText: OpText) returns (r: Outcome<seq<string>>)
    ensures r == ExprTexts(reqs, opText)
  {
    var exprs: seq<string> := [];
    for i := 0 to |reqs|
      invariant ExprTexts(reqs[..i], opText) == Ok(exprs)
    {
      assert reqs[..i + 1][..i] == reqs[..i];
      var op := opText(reqs[i].op);
      if !op.Ok? {
        ExprTextsStuck(reqs, i + 1, opText);
        return op.PropagateFailure();
      }
      exprs := exprs + [SpellRequirement(reqs[i], op.value)];
    }
    assert reqs[..|reqs|] == reqs;
    return Ok(exprs);
  }

  lemma ExprTextsSnoc(reqs: seq<Requirement>, r: Requirement, opText: OpText)
    requires ExprTexts(reqs, opText).Ok? && opText(r.op).Ok?
    ensures ExprTexts(reqs + [r], opText) == Ok(ExprTexts(reqs, opText).value + [SpellRequirement(r, opText(r.op).value)])
  {
    assert (reqs + [r])[..|reqs|] == reqs;
  }

  lemma {:induction false} ExprTextsStuck(reqs: seq<Requirement>, i: nat, opText: OpText)
    requires i <= |reqs| && !ExprTexts(reqs[..i], opText).Ok?
    ensures ExprTexts(reqs, opText) == ExprTexts(reqs[..i], opText)
    decreases |reqs|
  {
    if i == |reqs| {
      assert reqs[..i] == reqs;
    } else {
      assert reqs[..|reqs| - 1][..i] == reqs[..i];
      ExprTextsStuck(reqs[..|reqs| - 1], i, opText);
    }
  }

  datatype Strength = Hard | Soft(weight: int32)

  /** A term of either list, in the order in which the converters walk them: required terms first. */
  datatype Item<T> = Item(strength: Strength, term: T)

  function Items<T>(required: seq<T>, preferred: seq<Weighted<T>>): seq<Item<T>>
    decreases |required| + |preferred|
  {
    if preferred != [] then
      var last := preferred[|preferred| - 1];
      Items(required, preferred[..|preferred| - 1]) + [Item(Soft(last.weight), last.term)]
    else if required != [] then Items(required[..|required| - 1], []) + [Item(Hard, required[|required| - 1])]
    else []
  }

  function Hards<T>(items: seq<Item<T>>): seq<T> {
    if items == [] then []
    else
      var last := items[|items| - 1];
      Hards(items[..|items| - 1]) + if last.strength.Hard? then [last.term] else []
  }

  function Softs<T>(items: seq<Item<T>>): seq<Weighted<T>> {
    if items == [] then []
    else
      var last := items[|items| - 1];
      Softs(items[..|items| - 1]) + if last.strength.Soft? then [Weighted(last.strength.weight, last.term)] else []
  }

  lemma HardStep<T>(terms: seq<T>, i: nat)
    requires i < |terms|
    ensures Items(terms[..i + 1], []) == Items(terms[..i], []) + [Item(Hard, terms[i])]
  {
    assert terms[..i + 1][..i] == terms[..i];
  }

  lemma SoftStep<T>(required: seq<T>, soft: seq<Weighted<T>>, i: nat)
    requires i < |soft|
    ensures Items(required, soft[..i + 1]) == Items(required, soft[..i]) + [Item(Soft(soft[i].weight), soft[i].term)]
  {
    assert soft[..i + 1][..i] == soft[..i];
  }

  /** What the loops have walked is a prefix of the items. */
  lemma {:induction false} SoftPrefix<T>(required: seq<T>, soft: seq<Weighted<T>>, i: nat)
    requires i <= |soft|
    ensures Items(required, soft[..i]) <= Items(required, soft)
    decreases |soft| - i
  {
    if i == |soft| {
      assert soft[..i] == soft;
    } else {
      SoftStep(required, soft, i);
      SoftPrefix(required, soft, i + 1);
    }
  }

  lemma {:induction false} HardPrefix<T>(required: seq<T>, soft: seq<Weighted<T>>, i: nat)
    requires i <= |required|
    ensures Items(required[..i], []) <= Items(required, soft)
    decreases |required| - i
  {
    if i == |required| {
      assert required[..i] == required && soft[..0] == [];
      SoftPrefix(required, soft, 0);
    } else {
      HardStep(required, i);
      HardPrefix(required, soft, i + 1);
    }
  }

  lemma {:induction false} ItemsSplit<T>(required: seq<T>, preferred: seq<Weighted<T>>)
    ensures Hards(Items(required, preferred)) == required && Softs(Items(required, preferred)) == preferred
    decreases |required| + |preferred|
  {
    if preferred != [] {
      var n := |preferred| - 1;
      var before, item := Items(required, preferred[..n]), Item(Soft(preferred[n].weight), preferred[n].term);
      assert Items(required, preferred) == before + [item];
      hide Items, Hards, Softs;
      ItemsSplit(required, preferred[..n]);
      SplitSnoc(before, item);
      assert preferred == preferred[..n] + [Weighted(item.strength.weight, item.term)];
    } else if required != [] {
      var n := |required| - 1;
      var before, item := Items(required[..n], []), Item(Hard, required[n]);
      assert Items(required, preferred) == before + [item];
      hide Items, Hards, Softs;
      ItemsSplit(required[..n], []);
      SplitSnoc(before, item);
      assert required == required[..n] + [item.term];
    }
  }

  lemma SplitSnoc<T>(items: seq<Item<T>>, item: Item<T>)
    ensures Hards(items + [item]) == if item.strength.Hard? then Hards(items) + [item.term] else Hards(items)
    ensures Softs(items + [item]) ==
            if item.strength.Soft? then Softs(items) + [Weighted(item.strength.weight, item.term)] else Softs(items)
  {
    assert (items + [item])[..|items|] == items;
  }

  /** How a term is marked: a hard term has no mark, a soft one "soft" and a weight unless 0. */
  function Mark(strength: Strength): string {
    match strength
    case Hard => ""
    case Soft(w) => ":soft" + if w == 0 then "" else ":" + Numerals.PrintInt(w as int, 10)
  }

  function TermText(exprs: seq<string>, strength: Strength): string {
    Join(exprs, "&") + Mark(strength)
  }

  // ----- Text to terms -----

  /** Cut at colons: the expressions, and what follows them. `unmarked` is the weight of ":soft" alone. */
  function Strengths(segs: seq<string>, unmarked: int32): Outcome<Strength>
    requires segs != []
  {
    if |segs| < 2 then Ok(Hard)
    else if segs[1] != "soft" then Fail
    else if |segs| < 3 then Ok(Soft(unmarked))
    else
      match Numerals.ParseInt(segs[2], 10, 32)
      case None => Fail
      case Some(w) =>
        Numerals.ParsedFits(segs[2]);
        Ok(Soft(w as int32))
  }

  const NODE_OPS: seq<string> := ["!=", "=", ">", "<"]

  /** One &-segment of a node term; `seg[0]` panics on an empty one. */
  function ParseNodeSegment(seg: string): Outcome<Requirement> {
    var expr :- ParseExpr(seg, NODE_OPS);
    match expr
    case None =>
      if seg == "" then Crash
      else if seg[0] == '!' then Ok(Requirement(seg[1..], DoesNotExist, []))
      else Ok(Requirement(seg, Exists, []))
    case Some(e) =>
      Ok(Requirement(e.key, if e.op == "=" then In else if e.op == "!=" then NotIn else if e.op == ">" then Gt else Lt, e.values))
  }

  function ParseNodeSegments(segs: seq<string>): Outcome<seq<Requirement>> {
    if segs == [] then Ok([])
    else
      var before :- ParseNodeSegments(segs[..|segs| - 1]);
      var last :- ParseNodeSegment(segs[|segs| - 1]);
      Ok(before + [last])
  }

  method ParseNodeExprs(s: string) returns (r: Outcome<seq<Requirement>>)
    ensures r == ParseNodeSegments(Split(s, "&"))
  {
    var reqs: seq<Requirement> := [];
    var segs := Split(s, "&");
    for i := 0 to |segs|
      invariant ParseNodeSegments(segs[..i]) == Ok(reqs)
    {
      assert segs[..i + 1][..i] == segs[..i];
      var req := ParseNodeSegment(segs[i]);
      if !req.Ok? {
        NodeSegmentsStuck(segs, i + 1);
        return req.PropagateFailure();
      }
      reqs := reqs + [req.value];
    }
    assert segs[..|segs|] == segs;
    return Ok(reqs);
  }

  lemma {:induction false} NodeSegmentsStuck(segs: seq<string>, i: nat)
    requires i <= |segs| && !ParseNodeSegments(segs[..i]).Ok?
    ensures ParseNodeSegments(segs) == ParseNodeSegments(segs[..i])
    decreases |segs|
  {
    if i == |segs| {
      assert segs[..i] == segs;
    } else {
      assert segs[..|segs| - 1][..i] == segs[..i];
      NodeSegmentsStuck(segs[..|segs| - 1], i);
    }
  }

  /** Segment `i` is empty, and those before it parse. */
  ghost predicate NodePanicAt(segs: seq<string>, i: nat) {
    i < |segs| && segs[i] == "" && ParseNodeSegments(segs[..i]).Ok?
  }

  /** Parsing a node term panics exactly at an empty segment behind segments that parse. */
  lemma {:induction false} NodeSegmentsPanic(segs: seq<string>)
    ensures ParseNodeSegments(segs).Crash? <==> exists i :: NodePanicAt(segs, i)
    decreases |segs|
  {
    if segs != [] {
      var n := |segs| - 1;
      NodeSegmentsPanic(segs[..n]);
      NodeSegmentPanics(segs[n]);
      forall i: nat | i < n
        ensures NodePanicAt(segs, i) <==> NodePanicAt(segs[..n], i)
      {
        assert segs[..n][..i] == segs[..i];
      }
      assert NodePanicAt(segs, n) <==> segs[n] == "" && ParseNodeSegments(segs[..n]).Ok?;
      hide ParseNodeSegment, NodePanicAt;
    }
  }

  lemma NodeSegmentPanics(seg: string)
    ensures ParseNodeSegment(seg).Crash? <==> seg == ""
  {
    NodeOpsTails();
    assert ParseExpr("", NODE_OPS[1..][1..][1..]) == Ok(None);
    assert ParseExpr("", NODE_OPS[1..][1..]) == Ok(None);
  }

  /** One node affinity string; ":soft" alone means weight 0, "unspecified". */
  function RevertNode(s: string): Outcome<Item<NodeTerm>> {
    var segs := Split(s, ":");
    var reqs :- ParseNodeSegments(Split(segs[0], "&"));
    var strength :- Strengths(segs, 0);
    Ok(Item(strength, NodeTerm(reqs, [])))
  }

  /** One pod affinity string; ":soft" alone means weight 1. */
  function RevertPod(e: PodEntry): Outcome<Item<PodTerm>> {
    var segs := Split(e.affinity, ":");
    var sel :- Parse(segs[0]);
    var strength :- Strengths(segs, 1);
    Ok(Item(strength, PodTerm(sel, e.namespaces, e.topology)))
  }

  /** A weight without expressions panics. */
  lemma OnlySoftPanics()
    ensures RevertNode(":soft").Crash?
  {
    assert ":soft"[1..] == "soft";
    assert Split(":soft", ":")[0] == "" && Split("", "&") == [""];
    assert NodePanicAt([""], 0) by {
      assert [""][..0] == [];
    }
    NodeSegmentsPanic([""]);
  }

  // ----- One string, there and back -----

  predicate WellFormedNodeRequirement(r: Requirement) {
    WellFormedRequirement(r) ||
    (r.key != "" && IsToken(r.key) && (r.op == Gt || r.op == Lt) && r.values != [] && forall v :: v in r.values ==> IsToken(v))
  }

  /** `text` is one segment of a node term that reads as `r`. */
  ghost predicate NodeReads(text: string, r: Requirement) {
    text != "" && '&' !in text && ':' !in text && ParseNodeSegment(text) == Ok(r)
  }

  lemma NodeOpsTails()
    ensures NODE_OPS[1..] == ["=", ">", "<"]
    ensures NODE_OPS[1..][1..] == [">", "<"]
    ensures NODE_OPS[1..][1..][1..] == ["<"]
  {
  }

  /** The operators tried before the right one do not occur. */
  lemma OpReads(key: string, op: string, values: seq<string>)
    requires IsToken(key) && values != [] && op in NODE_OPS && forall v :: v in values ==> IsToken(v)
    ensures ParseExpr(key + op + Join(values, ","), NODE_OPS) == Ok(Some(Expr(key, op, values)))
  {
    var text := key + op + Join(values, ",");
    OpSplits(key, op, values);
    hide ParseOp;
    NodeOpsTails();
    if op != "!=" {
      LacksFirst(key, op, values, "!=");
      if op != "=" {
        LacksFirst(key, op, values, "=");
        if op != ">" {
          LacksFirst(key, op, values, ">");
        }
        assert ParseExpr(text, NODE_OPS[1..][1..]) == Ok(Some(Expr(key, op, values)));
      }
      assert ParseExpr(text, NODE_OPS[1..]) == Ok(Some(Expr(key, op, values)));
    }
  }

  lemma LacksFirst(key: string, op: string, values: seq<string>, other: string)
    requires IsToken(key) && forall v :: v in values ==> IsToken(v)
    requires op in NODE_OPS && op != "!=" && other in NODE_OPS && other[0] != op[0]
    ensures ParseOp(key + op + Join(values, ","), other) == Ok(None)
  {
    OtherOpAbsent(key, op, values, other);
  }

  lemma NodeRequirementReads(r: Requirement)
    requires WellFormedNodeRequirement(r)
    ensures NodeOpText(r.op).Ok? && NodeReads(SpellRequirement(r, NodeOpText(r.op).value), r)
  {
    SpellingLacks(r, '&');
    SpellingLacks(r, ':');
    hide ParseExpr;
    if r.op == Exists {
      NoNodeOperator(r.key, r.key);
      assert r.key[0] in r.key;
    } else if r.op == DoesNotExist {
      NoNodeOperator(r.key, "!" + r.key);
      assert ("!" + r.key)[1..] == r.key;
    } else {
      OpReads(r.key, NodeOpText(r.op).value, r.values);
    }
  }

  lemma NoNodeOperator(key: string, text: string)
    requires IsToken(key) && key != "" && (text == key || text == "!" + key)
    ensures ParseExpr(text, NODE_OPS) == Ok(None)
  {
    TokenLacks(key, "!=");
    TokenLacks(key, "=");
    TokenLacks(key, ">");
    TokenLacks(key, "<");
    assert key[0] in key;
    if text != key {
      assert text[1..] == key;
    }
    assert NODE_OPS[1..] == ["=", ">", "<"] && NODE_OPS[1..][1..] == [">", "<"] && NODE_OPS[1..][1..][1..] == ["<"];
    assert ParseExpr(text, NODE_OPS[1..][1..][1..]) == Ok(None);
    assert ParseExpr(text, NODE_OPS[1..][1..]) == Ok(None);
  }

  lemma SpellingLacks(r: Requirement, c: char)
    requires WellFormedNodeRequirement(r) && (c == '&' || c == ':')
    ensures c !in SpellRequirement(r, NodeOpText(r.op).value)
  {
    assert c !in r.key;
    TokenListLacks(r.values, [c]);
    ContainsChar(Join(r.values, ","), c);
  }

  lemma {:induction false} NodeExprsRead(reqs: seq<Requirement>)
    requires forall r :: r in reqs ==> WellFormedNodeRequirement(r)
    ensures ExprTexts(reqs, NodeOpText).Ok?
    ensures forall i :: 0 <= i < |reqs| ==> NodeReads(ExprTexts(reqs, NodeOpText).value[i], reqs[i])
    ensures ParseNodeSegments(ExprTexts(reqs, NodeOpText).value) == Ok(reqs)
  {
    if reqs != [] {
      var before, last := reqs[..|reqs| - 1], reqs[|reqs| - 1];
      assert reqs == before + [last];
      NodeExprsRead(before);
      NodeRequirementReads(last);
      var texts := ExprTexts(reqs, NodeOpText).value;
      assert texts[..|texts| - 1] == ExprTexts(before, NodeOpText).value;
    }
  }

  function MarkSegs(body: string, strength: Strength): seq<string> {
    match strength
    case Hard => [body]
    case Soft(w) => if w == 0 then [body, "soft"] else [body, "soft", Numerals.PrintInt(w as int, 10)]
  }

  lemma MarkJoins(body: string, strength: Strength)
    ensures Join(MarkSegs(body, strength), ":") == body + Mark(strength)
  {
    if strength == Hard {
      assert body + "" == body;
    } else if strength.weight == 0 {
      JoinTwo(body, "soft");
      assert body + ":" + "soft" == body + (":soft" + "");
    } else {
      var weight := Numerals.PrintInt(strength.weight as int, 10);
      hide Numerals.PrintInt;
      JoinThree(body, "soft", weight);
      assert body + ":" + "soft" + ":" + weight == body + (":soft" + (":" + weight));
    }
  }

  lemma JoinTwo(a: string, b: string)
    ensures Join([a, b], ":") == a + ":" + b
  {
    assert [a, b][1..] == [b];
  }

  lemma JoinThree(a: string, b: string, c: string)
    ensures Join([a, b, c], ":") == a + ":" + b + ":" + c
  {
    assert [a, b, c][1..] == [b, c];
    JoinTwo(b, c);
    assert a + ":" + (b + ":" + c) == a + ":" + b + ":" + c;
  }

  /** What marks follow, `body` is cut off by the first colon and the mark is read back. */
  lemma MarkReads(body: string, strength: Strength, unmarked: int32)
    requires ':' !in body
    ensures var segs := Split(body + Mark(strength), ":");
      && segs[0] == body
      && Strengths(segs, unmarked) == Ok(if strength == Soft(0) then Soft(unmarked) else strength)
  {
    hide Mark, Strengths;
    MarkJoins(body, strength);
    SegsLackColon(body, strength);
    SplitJoin(MarkSegs(body, strength), ':');
    StrengthRead(body, strength, unmarked);
  }

  lemma SegsLackColon(body: string, strength: Strength)
    requires ':' !in body
    ensures forall x :: x in MarkSegs(body, strength) ==> ':' !in x
  {
    if strength.Soft? {
      PrintIntLacksColon(strength.weight as int);
    }
  }

  lemma StrengthRead(body: string, strength: Strength, unmarked: int32)
    ensures Strengths(MarkSegs(body, strength), unmarked) == Ok(if strength == Soft(0) then Soft(unmarked) else strength)
  {
    if strength.Soft? {
      Numerals.Pow2Of31();
      Numerals.ParsePrint(strength.weight as int, 10, 32);
    }
  }

  lemma {:induction false} PrintLacksColon(n: nat)
    ensures ':' !in Numerals.Print(n, 10)
  {
    if n >= 10 {
      PrintLacksColon(n / 10);
    }
  }

  lemma PrintIntLacksColon(n: int)
    ensures ':' !in Numerals.PrintInt(n, 10)
  {
    PrintLacksColon(if n < 0 then -n else n);
  }

  lemma JoinLacksColon(texts: seq<string>)
    requires forall t :: t in texts ==> ':' !in t
    ensures ':' !in Join(texts, "&")
  {
    if ':' in Join(texts, "&") {
      JoinChars(texts, "&", ':');
    }
  }

  /** A node term, hard or soft with any weight, is read back exactly. */
  lemma NodeTermRoundTrip(reqs: seq<Requirement>, strength: Strength)
    requires reqs != [] && forall r :: r in reqs ==> WellFormedNodeRequirement(r)
    ensures ExprTexts(reqs, NodeOpText).Ok?
    ensures RevertNode(TermText(ExprTexts(reqs, NodeOpText).value, strength)) == Ok(Item(strength, NodeTerm(reqs, [])))
  {
    NodeExprsRead(reqs);
    var texts := ExprTexts(reqs, NodeOpText).value;
    assert forall t :: t in texts ==> '&' !in t && ':' !in t;
    JoinLacksColon(texts);
    SplitJoin(texts, '&');
    MarkReads(Join(texts, "&"), strength, 0);
  }
}
