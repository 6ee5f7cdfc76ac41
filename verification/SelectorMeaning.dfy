/** What label selectors select, and when that is nothing. */
module SelectorMeaning {
  import opened Outcomes
  import opened Selectors

  /** What a requirement asks of an object's labels. */
  predicate Satisfies(labels: Labels, r: Requirement) {
    match r.op
    case In => r.key in labels && labels[r.key] in r.values
    case NotIn => r.key in labels ==> labels[r.key] !in r.values
    case Exists => r.key in labels
    case DoesNotExist => r.key !in labels
    case _ => false
  }

  predicate Meets(labels: Labels, c: Condition) {
    match c
    case Label(k, v) => k in labels && labels[k] == v
    case Require(r) => Satisfies(labels, r)
  }

  ghost predicate Selects(sel: LabelSelector, labels: Labels) {
    && (forall k :: k in sel.matchLabels ==> k in labels && labels[k] == sel.matchLabels[k])
    && forall r :: r in sel.matchExpressions ==> Satisfies(labels, r)
  }

  ghost predicate Equivalent(a: LabelSelector, b: LabelSelector) {
    forall labels :: Selects(a, labels) <==> Selects(b, labels)
  }

  /** Part of a valid label key or value: none of the mini-language's punctuation. */
  predicate IsToken(s: string) {
    forall c :: c in s ==> c !in "&=!,:<>"
  }

  predicate WellFormedRequirement(r: Requirement) {
    && r.key != "" && IsToken(r.key)
    && (forall v :: v in r.values ==> IsToken(v))
    && match r.op
       case In => r.values != []
       case NotIn => r.values != []
       case Exists => r.values == []
       case DoesNotExist => r.values == []
       case _ => false
  }

  predicate WellFormedSelector(sel: LabelSelector) {
    && (forall k :: k in sel.matchLabels ==> k != "" && IsToken(k) && IsToken(sel.matchLabels[k]))
    && forall r :: r in sel.matchExpressions ==> WellFormedRequirement(r)
  }

  // ----- Selecting nothing -----

  ghost predicate SelectsNothing(sel: LabelSelector) {
    forall labels :: !Selects(sel, labels)
  }

  predicate KnownOperators(sel: LabelSelector) {
    forall r :: r in sel.matchExpressions ==> r.op == In || r.op == NotIn || r.op == Exists || r.op == DoesNotExist
  }

  /** The requirement holds of objects whose label has this value. */
  predicate Accepts(r: Requirement, v: string) {
    match r.op
    case In => v in r.values
    case NotIn => v !in r.values
    case Exists => true
    case _ => false
  }

  predicate Rejected(reqs: seq<Requirement>, k: string, v: string) {
    exists q :: q in reqs && q.key == k && !Accepts(q, v)
  }

  /** A requirement that cannot be met: it rejects the label of its key; or, without such a label, it asks
      for a key that must not exist, or for values each of which some requirement rejects. */
  predicate Unmeetable(sel: LabelSelector, r: Requirement) {
    if r.key in sel.matchLabels then !Accepts(r, sel.matchLabels[r.key])
    else if r.op == Exists then exists q :: q in sel.matchExpressions && q.key == r.key && q.op == DoesNotExist
    else r.op == In && forall v :: v in r.values ==> Rejected(sel.matchExpressions, r.key, v)
  }

  /** Some requirement cannot be met. */
  predicate Hopeless(sel: LabelSelector) {
    exists r :: r in sel.matchExpressions && Unmeetable(sel, r)
  }

  lemma PresentAccepts(labels: Labels, r: Requirement)
    requires r.key in labels
    ensures Satisfies(labels, r) <==> Accepts(r, labels[r.key])
  {
  }

  lemma HopelessSelectsNothing(sel: LabelSelector, labels: Labels)
    requires Hopeless(sel)
    ensures !Selects(sel, labels)
  {
    var r :| r in sel.matchExpressions && Unmeetable(sel, r);
    if Selects(sel, labels) && r.key in labels {
      PresentAccepts(labels, r);
      var v := labels[r.key];
      if Rejected(sel.matchExpressions, r.key, v) {
        var q :| q in sel.matchExpressions && q.key == r.key && !Accepts(q, v);
        PresentAccepts(labels, q);
      }
    }
  }

  // ----- Labels that meet every requirement that can be met -----

  function Longest(values: seq<string>): (n: nat)
    ensures forall v :: v in values ==> |v| <= n
  {
    if values == [] then 0
    else
      var rest := Longest(values[1..]);
      assert values == [values[0]] + values[1..];
      if |values[0]| > rest then |values[0]| else rest
  }

  function LongestOf(reqs: seq<Requirement>): (n: nat)
    ensures forall r :: r in reqs ==> forall v :: v in r.values ==> |v| <= n
  {
    if reqs == [] then 0
    else
      var first, rest := Longest(reqs[0].values), LongestOf(reqs[1..]);
      assert reqs == [reqs[0]] + reqs[1..];
      if first > rest then first else rest
  }

  /** A value that no requirement mentions. */
  function Unmentioned(reqs: seq<Requirement>): (v: string)
    ensures forall r :: r in reqs ==> v !in r.values
  {
    seq(LongestOf(reqs) + 1, _ => 'x')
  }

  ghost predicate Fits(reqs: seq<Requirement>, k: string, v: string) {
    !Rejected(reqs, k, v) && exists r :: r in reqs && r.key == k && r.op == In && v in r.values
  }

  ghost predicate Asked(reqs: seq<Requirement>, k: string, op: Operator) {
    exists r :: r in reqs && r.key == k && r.op == op
  }

  /** The value a key should have, or none. */
  ghost function Choice(sel: LabelSelector, k: string): (choice: Option<string>)
    requires !Hopeless(sel)
    ensures k in sel.matchLabels ==> choice == Some(sel.matchLabels[k])
    ensures k !in sel.matchLabels && Asked(sel.matchExpressions, k, In) ==>
      choice.Some? && Fits(sel.matchExpressions, k, choice.value)
    ensures k !in sel.matchLabels && !Asked(sel.matchExpressions, k, In) ==>
      choice == if Asked(sel.matchExpressions, k, Exists) then Some(Unmentioned(sel.matchExpressions)) else None
  {
    var reqs := sel.matchExpressions;
    if k in sel.matchLabels then Some(sel.matchLabels[k])
    else if Asked(reqs, k, In) then
      var r :| r in reqs && r.key == k && r.op == In;
      assert !Unmeetable(sel, r);
      assert exists v :: v in r.values && !Rejected(reqs, k, v);
      var v :| v in r.values && !Rejected(reqs, k, v);
      Some(v)
    else if Asked(reqs, k, Exists) then Some(Unmentioned(reqs))
    else None
  }

  ghost function Example(sel: LabelSelector): Labels
    requires !Hopeless(sel)
  {
    map k | k in sel.matchLabels.Keys + (set r | r in sel.matchExpressions :: r.key) && Choice(sel, k).Some? :: Choice(sel, k).value
  }

  lemma ExampleMeets(sel: LabelSelector, r: Requirement)
    requires !Hopeless(sel) && KnownOperators(sel) && r in sel.matchExpressions
    ensures Satisfies(Example(sel), r)
  {
    var k, reqs, labels := r.key, sel.matchExpressions, Example(sel);
    var choice := Choice(sel, k);
    assert !Unmeetable(sel, r);
    assert k in labels <==> choice.Some?;
    if choice.Some? {
      PresentAccepts(labels, r);
      if k !in sel.matchLabels && !Asked(reqs, k, In) {
        var q :| q in reqs && q.key == k && q.op == Exists;
        assert !Unmeetable(sel, q);
      }
    } else {
      assert r.op != In && r.op != Exists;
    }
  }

  /** A selector selects nothing exactly when one of its requirements cannot be met. */
  lemma HopelessExactly(sel: LabelSelector)
    requires KnownOperators(sel)
    ensures Hopeless(sel) <==> SelectsNothing(sel)
  {
    if Hopeless(sel) {
      forall labels
        ensures !Selects(sel, labels)
      {
        HopelessSelectsNothing(sel, labels);
      }
    } else {
      forall r | r in sel.matchExpressions
        ensures Satisfies(Example(sel), r)
      {
        ExampleMeets(sel, r);
      }
      assert Selects(sel, Example(sel));
    }
  }
}
