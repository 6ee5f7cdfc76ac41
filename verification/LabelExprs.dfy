/** Labels written as sorted expressions: map iteration is arbitrary, the result is not. */
module LabelExprs {
  import opened Outcomes
  import opened Selectors
  import opened SelectorRoundTrips
  import opened FieldOrder
  import opened Sorting

  /** sort.Strings inserts a string before the first one that is greater. */
  function InsertName(t: string, ts: seq<string>): (r: seq<string>)
    ensures |r| == |ts| + 1
  {
    Insert(t, ts, NameLess)
  }

  lemma NamesOrdered(a: string, b: string, c: string)
    ensures !NameLess(a, a)
    ensures a == b || NameLess(a, b) || NameLess(b, a)
    ensures !(NameLess(a, b) && NameLess(b, a))
    ensures NameLess(a, b) && NameLess(b, c) ==> NameLess(a, c)
  {
    SameCodes(a, b);
    LexTotal(Codes(a), Codes(b));
    LexTotal(Codes(a), Codes(a));
    if NameLess(a, b) && NameLess(b, c) {
      LexTransitive(Codes(a), Codes(b), Codes(c));
    }
  }

  lemma {:induction false} InsertsCommute(a: string, b: string, ts: seq<string>)
    ensures InsertName(a, InsertName(b, ts)) == InsertName(b, InsertName(a, ts))
  {
    hide NameLess;
    NamesOrdered(a, b, a);
    if ts == [] {
      assert [a][0] == a && [a][1..] == [] && [b][0] == b && [b][1..] == [];
      assert [a, b] == [a] + [b] && [b, a] == [b] + [a];
    } else {
      InsertsCommute(a, b, ts[1..]);
      NamesOrdered(ts[0], a, b);
      NamesOrdered(ts[0], b, a);
      InsertHead(a, b, ts);
      InsertHead(b, a, ts);
    }
  }

  /** Two insertions into a non-empty list, one unfolding at a time. */
  lemma InsertHead(a: string, b: string, ts: seq<string>)
    requires ts != []
    ensures InsertName(a, InsertName(b, ts)) ==
            if !NameLess(b, ts[0]) then
              if !NameLess(a, ts[0]) then [ts[0]] + InsertName(a, InsertName(b, ts[1..])) else [a] + InsertName(b, ts)
            else if !NameLess(a, b) then [b] + InsertName(a, ts) else [a] + InsertName(b, ts)
  {
    hide NameLess;
    var once := InsertName(b, ts);
    if !NameLess(b, ts[0]) {
      assert once[0] == ts[0] && once[1..] == InsertName(b, ts[1..]);
    } else {
      assert once[0] == b && once[1..] == ts;
    }
  }

  /** The sorted expressions of a label map. */
  ghost function LabelExprsOf(labels: Labels): (texts: seq<string>)
    ensures |texts| == |labels|
  {
    if labels == map[] then [] else
      var k :| k in labels;
      InsertName(LabelText(k, labels[k]), LabelExprsOf(labels - {k}))
  }

  /** Which key is taken first does not matter. */
  lemma {:induction false} AnyKeyFirst(labels: Labels, k: string)
    requires k in labels
    ensures LabelExprsOf(labels) == InsertName(LabelText(k, labels[k]), LabelExprsOf(labels - {k}))
    decreases |labels|
  {
    var first :| first in labels && LabelExprsOf(labels) == InsertName(LabelText(first, labels[first]), LabelExprsOf(labels - {first}));
    hide InsertName, LabelExprsOf, LabelText;
    if first != k {
      var rest := labels - {first} - {k};
      assert rest == labels - {k} - {first};
      AnyKeyFirst(labels - {first}, k);
      AnyKeyFirst(labels - {k}, first);
      InsertsCommute(LabelText(first, labels[first]), LabelText(k, labels[k]), LabelExprsOf(rest));
    }
  }

  lemma NothingSorted(labels: Labels)
    ensures Sort([], NameLess) == LabelExprsOf(labels - labels.Keys)
  {
    assert labels - labels.Keys == map[];
  }

  lemma OneMoreKey(labels: Labels, todo: set<string>, key: string, exprs: seq<string>)
    requires key in todo && todo <= labels.Keys
    requires Sort(exprs, NameLess) == LabelExprsOf(labels - todo)
    ensures Sort(exprs + [LabelText(key, labels[key])], NameLess) == LabelExprsOf(labels - (todo - {key}))
  {
    hide InsertName, LabelExprsOf, LabelText;
    var text := LabelText(key, labels[key]);
    SortSnoc(exprs, text);
    AnyKeyFirst(labels - (todo - {key}), key);
    assert labels - (todo - {key}) - {key} == labels - todo;
  }

  lemma SortSnoc(exprs: seq<string>, text: string)
    ensures Sort(exprs + [text], NameLess) == InsertName(text, Sort(exprs, NameLess))
  {
    assert (exprs + [text])[..|exprs|] == exprs;
  }

  /** They are sorted. */
  lemma {:induction false} ExprsSorted(labels: Labels)
    ensures SortedBy(LabelExprsOf(labels), NameLess)
    decreases |labels|
  {
    if labels != map[] {
      var k :| k in labels;
      AnyKeyFirst(labels, k);
      NameLessIsOrder();
      hide NameLess, LabelExprsOf, LabelText;
      ExprsSorted(labels - {k});
      InsertSorted(LabelText(k, labels[k]), LabelExprsOf(labels - {k}), NameLess);
    }
  }

  lemma NameLessIsOrder()
    ensures IsOrder(NameLess)
  {
    forall x, y, z | !NameLess(y, x) && !NameLess(z, y)
      ensures !NameLess(z, x)
    {
      NamesOrdered(x, y, z);
      NamesOrdered(y, z, x);
      NamesOrdered(x, z, y);
    }
    forall x, y | NameLess(x, y)
      ensures !NameLess(y, x)
    {
      NamesOrdered(x, y, x);
    }
  }

  method ConvertMatchLabelsToExprs(matchLabels: Labels) returns (exprs: seq<string>)
    ensures exprs == LabelExprsOf(matchLabels)
  {
    hide Sort, LabelExprsOf;
    exprs := [];
    var todo := matchLabels.Keys;
    NothingSorted(matchLabels);
    while todo != {}
      invariant todo <= matchLabels.Keys
      invariant Sort(exprs, NameLess) == LabelExprsOf(matchLabels - todo)
    {
      var key :| key in todo;
      OneMoreKey(matchLabels, todo, key, exprs);
      exprs := exprs + [LabelText(key, matchLabels[key])];
      todo := todo - {key};
    }
    assert matchLabels - todo == matchLabels;
    exprs := Sort(exprs, NameLess);
  }

  lemma {:induction false} InsertedAt(t: string, ts: seq<string>) returns (p: nat)
    ensures p <= |ts| && InsertName(t, ts) == ts[..p] + [t] + ts[p..]
  {
    if ts == [] || NameLess(t, ts[0]) {
      return 0;
    }
    p := InsertedAt(t, ts[1..]);
    assert ts[..p + 1] == [ts[0]] + ts[1..][..p];
    p := p + 1;
  }

  /** The sorted expressions are those of the labels, in some order of the keys. */
  lemma {:induction false} ExprsOrder(labels: Labels) returns (order: seq<string>)
    ensures Enumerates(order, labels.Keys) && LabelExprsOf(labels) == LabelTexts(labels, order)
    decreases |labels|
  {
    hide InsertName;
    if labels == map[] {
      return [];
    }
    hide LabelExprsOf;
    var k :| k in labels;
    AnyKeyFirst(labels, k);
    var rest := ExprsOrder(labels - {k});
    var p := InsertedAt(LabelText(k, labels[k]), LabelExprsOf(labels - {k}));
    hide Enumerates, LabelText;
    InsertKey(rest, k, p, labels.Keys);
    order := rest[..p] + [k] + rest[p..];
    TextsInserted(labels, rest, k, p);
  }

  lemma TextsInserted(labels: Labels, rest: seq<string>, k: string, p: nat)
    requires k in labels && p <= |rest| && forall j :: j in rest ==> j in labels - {k}
    ensures forall j :: j in rest[..p] + [k] + rest[p..] ==> j in labels
    ensures var texts := LabelTexts(labels - {k}, rest);
      LabelTexts(labels, rest[..p] + [k] + rest[p..]) == texts[..p] + [LabelText(k, labels[k])] + texts[p..]
  {
    var order := rest[..p] + [k] + rest[p..];
    assert forall j :: j in order ==> j in rest || j == k;
    var texts := LabelTexts(labels - {k}, rest);
    assert forall i :: 0 <= i < |rest| ==> rest[i] in rest;
    var all := texts[..p] + [LabelText(k, labels[k])] + texts[p..];
    forall i | 0 <= i < |order|
      ensures LabelTexts(labels, order)[i] == all[i]
    {
    }
  }

  lemma InsertKey(rest: seq<string>, k: string, p: nat, keys: set<string>)
    requires p <= |rest| && k in keys && Enumerates(rest, keys - {k})
    ensures Enumerates(rest[..p] + [k] + rest[p..], keys)
  {
    var order := rest[..p] + [k] + rest[p..];
    forall j | j in keys
      ensures j in order
    {
      if j != k {
        assert j in rest;
        var i :| 0 <= i < |rest| && rest[i] == j;
        assert order[if i < p then i else i + 1] == j;
      } else {
        assert order[p] == k;
      }
    }
    assert forall i :: 0 <= i < |rest| ==> rest[i] in rest;
  }
}
