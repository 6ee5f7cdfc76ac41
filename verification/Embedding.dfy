/** The breadth-first search of typeFields over embedded structs. */
module Embedding {
  import opened FieldOrder

  /** One field of a struct type, its json tag parsed and a pointer type already followed.
      `tagName` is empty when the tag has no valid name; `skipped` is the tag "-". */
  datatype StructField = StructField(
    name: string, exported: bool, skipped: bool, tagName: string, anonymous: bool,
    typ: TypeId, omitEmpty: bool, quoted: bool)

  /** The struct types and their fields; any other type is no struct. */
  type Types = map<TypeId, seq<StructField>>

  /** A struct waiting to be explored, and the index sequence that leads to it. */
  datatype Embed = Embed(typ: TypeId, index: seq<nat>)

  /** A struct that is explored; `twice` when it was queued more than once. */
  datatype Visit = Visit(typ: TypeId, index: seq<nat>, twice: bool)

  predicate Visible(sf: StructField) {
    sf.exported && !sf.skipped
  }

  predicate Recorded(types: Types, sf: StructField) {
    Visible(sf) && (sf.tagName != "" || !sf.anonymous || sf.typ !in types)
  }

  predicate Embeds(types: Types, sf: StructField) {
    Visible(sf) && !Recorded(types, sf)
  }

  /** The entry for a struct field: under its tag's name if that is valid, else under its own; an
      embedded struct without one has no entry of its own. */
  predicate Describes(types: Types, f: Field, sf: StructField) {
    && sf.exported && !sf.skipped && !(sf.anonymous && sf.tagName == "" && sf.typ in types)
    && (f.tagged <==> sf.tagName != "") && (if f.tagged then f.name == sf.tagName else f.name == sf.name)
    && f.typ == sf.typ && f.omitEmpty == sf.omitEmpty && f.quoted == sf.quoted
  }

  lemma FieldOfDescribes(types: Types, f: Field, sf: StructField)
    ensures Recorded(types, sf) && f == FieldOf(sf, f.index) <==> Describes(types, f, sf)
  {
  }

  function FieldOf(sf: StructField, index: seq<nat>): Field {
    Field(if sf.tagName == "" then sf.name else sf.tagName, sf.tagName != "", index, sf.typ, sf.omitEmpty, sf.quoted)
  }

  // ----- The search, level by level -----

  /** What exploring the first `n` fields of a struct records. */
  function FieldsOf(types: Types, v: Visit, n: nat): (fields: seq<Field>)
    requires v.typ in types && n <= |types[v.typ]|
  {
    if n == 0 then []
    else
      var sf := types[v.typ][n - 1];
      var f := FieldOf(sf, v.index + [n - 1]);
      FieldsOf(types, v, n - 1) + if !Recorded(types, sf) then [] else if v.twice then [f, f] else [f]
  }

  /** What exploring the first `n` fields of a struct queues. */
  function EmbedsOf(types: Types, v: Visit, n: nat): (embeds: seq<Embed>)
    requires v.typ in types && n <= |types[v.typ]|
  {
    if n == 0 then []
    else
      var sf := types[v.typ][n - 1];
      EmbedsOf(types, v, n - 1) + if Embeds(types, sf) then [Embed(sf.typ, v.index + [n - 1])] else []
  }

  function Count(queued: seq<Embed>, t: TypeId): nat {
    if queued == [] then 0
    else Count(queued[..|queued| - 1], t) + if queued[|queued| - 1].typ == t then 1 else 0
  }

  predicate Mentions(queued: seq<Embed>, t: TypeId) {
    exists e :: e in queued && e.typ == t
  }

  /** The queue holds a type only once, as it was first met. */
  function FirstOfEach(queued: seq<Embed>): (first: seq<Embed>)
    ensures forall e :: e in first ==> e in queued
  {
    if queued == [] then []
    else
      var before, last := FirstOfEach(queued[..|queued| - 1]), queued[|queued| - 1];
      if Mentions(before, last.typ) then before else before + [last]
  }

  lemma {:induction false} FirstMentions(queued: seq<Embed>, t: TypeId)
    ensures Mentions(FirstOfEach(queued), t) <==> Mentions(queued, t)
  {
    if queued != [] {
      var before, last := queued[..|queued| - 1], queued[|queued| - 1];
      FirstMentions(before, t);
      assert queued == before + [last];
      assert last in FirstOfEach(before) + [last];
    }
  }

  predicate Known(types: Types, queue: seq<Embed>) {
    forall e :: e in queue ==> e.typ in types
  }

  /** The structs of a queue that were not visited at an earlier level. */
  function Level(visited: set<TypeId>, queue: seq<Embed>, queued: seq<Embed>): (level: seq<Visit>)
    ensures forall v :: v in level <==>
      v.typ !in visited && Embed(v.typ, v.index) in queue && v.twice == (Count(queued, v.typ) > 1)
  {
    if queue == [] then []
    else
      var before, last := Level(visited, queue[..|queue| - 1], queued), queue[|queue| - 1];
      assert queue == queue[..|queue| - 1] + [last];
      if last.typ in visited then before else before + [Visit(last.typ, last.index, Count(queued, last.typ) > 1)]
  }

  function Expand(types: Types, level: seq<Visit>): (queued: seq<Embed>)
    requires forall v :: v in level ==> v.typ in types
  {
    if level == [] then []
    else
      var v := level[|level| - 1];
      Expand(types, level[..|level| - 1]) + EmbedsOf(types, v, |types[v.typ]|)
  }

  ghost function TypesOf(level: seq<Visit>): set<TypeId> {
    set v | v in level :: v.typ
  }

  lemma {:induction false} ExpandKnown(types: Types, level: seq<Visit>)
    requires forall v :: v in level ==> v.typ in types
    ensures Known(types, Expand(types, level))
  {
    if level != [] {
      var v := level[|level| - 1];
      ExpandKnown(types, level[..|level| - 1]);
      EmbedsKnown(types, v, |types[v.typ]|);
    }
  }

  lemma {:induction false} EmbedsKnown(types: Types, v: Visit, n: nat)
    requires v.typ in types && n <= |types[v.typ]|
    ensures Known(types, EmbedsOf(types, v, n))
  {
    if n > 0 {
      EmbedsKnown(types, v, n - 1);
    }
  }

  /** All the structs the search explores, in order. */
  ghost function Visits(types: Types, visited: set<TypeId>, queued: seq<Embed>): (visits: seq<Visit>)
    requires Known(types, queued)
    ensures forall v :: v in visits ==> v.typ in types
    decreases types.Keys - visited
  {
    var level := Level(visited, FirstOfEach(queued), queued);
    if level == [] then []
    else
      assert level[0] in level && level[0].typ in types.Keys - visited;
      ExpandKnown(types, level);
      level + Visits(types, visited + TypesOf(level), Expand(types, level))
  }

  function AllFields(types: Types, visits: seq<Visit>): seq<Field>
    requires forall v :: v in visits ==> v.typ in types
  {
    if visits == [] then []
    else
      var v := visits[|visits| - 1];
      AllFields(types, visits[..|visits| - 1]) + FieldsOf(types, v, |types[v.typ]|)
  }

  lemma {:induction false} AllFieldsConcat(types: Types, a: seq<Visit>, b: seq<Visit>)
    requires forall v :: v in a + b ==> v.typ in types
    ensures AllFields(types, a + b) == AllFields(types, a) + AllFields(types, b)
  {
    if b == [] {
      assert a + b == a;
    } else {
      var last := |b| - 1;
      assert (a + b)[..|a + b| - 1] == a + b[..last];
      AllFieldsConcat(types, a, b[..last]);
      var v := b[last];
      ConcatAssociates(AllFields(types, a), AllFields(types, b[..last]), FieldsOf(types, v, |types[v.typ]|));
    }
  }

  ghost function Root(root: TypeId): seq<Embed> {
    [Embed(root, [])]
  }

  /** The candidate list of typeFields. */
  ghost function Candidates(types: Types, root: TypeId): seq<Field>
    requires root in types
  {
    AllFields(types, Visits(types, {}, Root(root)))
  }

  // ----- The loops -----

  function Tally(count: map<TypeId, nat>, t: TypeId): nat {
    if t in count then count[t] else 0
  }

  /** One struct's fields: append what is recorded, queue what is embedded. */
  method Scan(types: Types, v: Visit, fields: seq<Field>, next: seq<Embed>, nextCount: map<TypeId, nat>, ghost queued: seq<Embed>)
    returns (fields': seq<Field>, next': seq<Embed>, nextCount': map<TypeId, nat>)
    requires v.typ in types
    requires next == FirstOfEach(queued) && forall t :: Tally(nextCount, t) == Count(queued, t)
    ensures fields' == fields + FieldsOf(types, v, |types[v.typ]|)
    ensures next' == FirstOfEach(queued + EmbedsOf(types, v, |types[v.typ]|))
    ensures forall t :: Tally(nextCount', t) == Count(queued + EmbedsOf(types, v, |types[v.typ]|), t)
  {
    hide Count, FirstOfEach;
    fields', next', nextCount' := fields, next, nextCount;
    assert queued + [] == queued;
    for i := 0 to |types[v.typ]|
      invariant fields' == fields + FieldsOf(types, v, i)
      invariant next' == FirstOfEach(queued + EmbedsOf(types, v, i))
      invariant forall t :: Tally(nextCount', t) == Count(queued + EmbedsOf(types, v, i), t)
    {
      var sf := types[v.typ][i];
      if Visible(sf) {
        var index := v.index + [i];
        if Recorded(types, sf) {
          fields' := fields' + [FieldOf(sf, index)];
          if v.twice {
            fields' := fields' + [fields'[|fields'| - 1]];
          }
          assert queued + EmbedsOf(types, v, i + 1) == queued + EmbedsOf(types, v, i);
        } else {
          ghost var before := queued + EmbedsOf(types, v, i);
          next', nextCount' := Enqueue(Embed(sf.typ, index), next', nextCount', before);
          assert before + [Embed(sf.typ, index)] == queued + EmbedsOf(types, v, i + 1);
        }
      } else {
        assert queued + EmbedsOf(types, v, i + 1) == queued + EmbedsOf(types, v, i);
      }
    }
  }

  /** Record a new anonymous struct to explore in the next round. */
  method Enqueue(e: Embed, next: seq<Embed>, nextCount: map<TypeId, nat>, ghost queued: seq<Embed>)
    returns (next': seq<Embed>, nextCount': map<TypeId, nat>)
    requires next == FirstOfEach(queued) && forall t :: Tally(nextCount, t) == Count(queued, t)
    ensures next' == FirstOfEach(queued + [e])
    ensures forall t :: Tally(nextCount', t) == Count(queued + [e], t)
  {
    QueueOne(queued, e);
    next' := next;
    nextCount' := nextCount[e.typ := Tally(nextCount, e.typ) + 1];
    if nextCount'[e.typ] == 1 {
      next' := next' + [e];
    }
  }

  /** Queueing one more struct: it is appended exactly when its type was not counted before. */
  lemma QueueOne(queued: seq<Embed>, e: Embed)
    ensures forall t :: Count(queued + [e], t) == Count(queued, t) + if e.typ == t then 1 else 0
    ensures FirstOfEach(queued + [e]) == FirstOfEach(queued) + if Count(queued, e.typ) == 0 then [e] else []
  {
    assert (queued + [e])[..|queued + [e]| - 1] == queued;
    CountMentions(queued, e.typ);
    FirstMentions(queued, e.typ);
  }

  lemma {:induction false} CountMentions(queued: seq<Embed>, t: TypeId)
    ensures Count(queued, t) > 0 <==> Mentions(queued, t)
  {
    if queued != [] {
      var before, last := queued[..|queued| - 1], queued[|queued| - 1];
      CountMentions(before, t);
      assert queued == before + [last];
    }
  }

  ghost predicate DistinctTypes(queue: seq<Embed>) {
    forall i, j :: 0 <= i < j < |queue| ==> queue[i].typ != queue[j].typ
  }

  lemma {:induction false} FirstDistinct(queued: seq<Embed>)
    ensures DistinctTypes(FirstOfEach(queued))
  {
    if queued != [] {
      var before, last := FirstOfEach(queued[..|queued| - 1]), queued[|queued| - 1];
      FirstDistinct(queued[..|queued| - 1]);
      if !Mentions(before, last.typ) {
        forall i | 0 <= i < |before|
          ensures before[i].typ != last.typ
        {
          assert Mentions(before, before[i].typ) by {
            assert before[i] in before;
          }
        }
        assert DistinctTypes(before + [last]);
      }
    }
  }

  lemma LevelSnoc(visited: set<TypeId>, queue: seq<Embed>, queued: seq<Embed>, c: nat)
    requires c < |queue|
    ensures Level(visited, queue[..c + 1], queued) ==
            Level(visited, queue[..c], queued) +
            if queue[c].typ in visited then [] else [Visit(queue[c].typ, queue[c].index, Count(queued, queue[c].typ) > 1)]
  {
    assert queue[..c + 1][..c] == queue[..c];
  }

  lemma GrowLevel(types: Types, level: seq<Visit>, v: Visit)
    requires v.typ in types && forall w :: w in level ==> w.typ in types
    ensures forall w :: w in level + [v] ==> w.typ in types
    ensures Expand(types, level + [v]) == Expand(types, level) + EmbedsOf(types, v, |types[v.typ]|)
    ensures AllFields(types, level + [v]) == AllFields(types, level) + FieldsOf(types, v, |types[v.typ]|)
    ensures TypesOf(level + [v]) == TypesOf(level) + {v.typ}
  {
    assert (level + [v])[..|level + [v]| - 1] == level;
    assert v in level + [v];
  }

  /** One round of the outer loop: explore the current level and queue the next. */
  method ExploreLevel(types: Types, current: seq<Embed>, count: map<TypeId, nat>, visited: set<TypeId>, fields: seq<Field>, ghost queued: seq<Embed>)
    returns (next: seq<Embed>, nextCount: map<TypeId, nat>, visited': set<TypeId>, fields': seq<Field>)
    requires Known(types, queued) && current == FirstOfEach(queued)
    requires forall t :: Tally(count, t) > 1 <==> Count(queued, t) > 1
    ensures var level := Level(visited, current, queued);
      visited' == visited + TypesOf(level) && Scanned(types, level, fields, fields', next, nextCount)
  {
    next, nextCount, visited', fields' := [], map[], visited, fields;
    FirstDistinct(queued);
    ghost var level: seq<Visit> := [];
    for c := 0 to |current|
      invariant level == Level(visited, current[..c], queued)
      invariant visited' == visited + TypesOf(level)
      invariant Scanned(types, level, fields, fields', next, nextCount)
    {
      var f := current[c];
      LevelSnoc(visited, current, queued, c);
      NotYetThisLevel(visited, current, queued, c);
      if f.typ !in visited' {
        visited' := visited' + {f.typ};
        fields', next, nextCount, level := Explore(types, Visit(f.typ, f.index, Tally(count, f.typ) > 1), fields', next, nextCount, level, fields);
      }
    }
    assert current[..|current|] == current;
  }

  method Explore(types: Types, v: Visit, fields: seq<Field>, next: seq<Embed>, nextCount: map<TypeId, nat>,
                 ghost level: seq<Visit>, ghost before: seq<Field>)
    returns (fields': seq<Field>, next': seq<Embed>, nextCount': map<TypeId, nat>, ghost level': seq<Visit>)
    requires v.typ in types && Scanned(types, level, before, fields, next, nextCount)
    ensures level' == level + [v] && TypesOf(level') == TypesOf(level) + {v.typ}
    ensures Scanned(types, level', before, fields', next', nextCount')
  {
    level' := level + [v];
    GrowLevel(types, level, v);
    fields', next', nextCount' := Scan(types, v, fields, next, nextCount, Expand(types, level));
  }

  /** The loop variables after the structs of `level` are explored. */
  ghost predicate Scanned(types: Types, level: seq<Visit>, before: seq<Field>, fields: seq<Field>, next: seq<Embed>, nextCount: map<TypeId, nat>) {
    && (forall v :: v in level ==> v.typ in types)
    && fields == before + AllFields(types, level)
    && next == FirstOfEach(Expand(types, level))
    && forall t :: Tally(nextCount, t) == Count(Expand(types, level), t)
  }

  lemma NotYetThisLevel(visited: set<TypeId>, current: seq<Embed>, queued: seq<Embed>, c: nat)
    requires c < |current|
    requires DistinctTypes(current)
    ensures current[c].typ !in TypesOf(Level(visited, current[..c], queued))
  {
    forall v | v in Level(visited, current[..c], queued)
      ensures v.typ != current[c].typ
    {
      var e := Embed(v.typ, v.index);
      assert e in current[..c];
    }
  }

  lemma ConcatAssociates<T>(a: seq<T>, b: seq<T>, c: seq<T>)
    ensures (a + b) + c == a + (b + c)
  {
  }

  lemma VisitsUnfold(types: Types, visited: set<TypeId>, queued: seq<Embed>)
    requires Known(types, queued)
    ensures var level := Level(visited, FirstOfEach(queued), queued);
      && (forall v :: v in level ==> v.typ in types)
      && Known(types, Expand(types, level))
      && AllFields(types, Visits(types, visited, queued)) ==
         AllFields(types, level) + AllFields(types, Visits(types, visited + TypesOf(level), Expand(types, level)))
  {
    var level := Level(visited, FirstOfEach(queued), queued);
    ExpandKnown(types, level);
    if level != [] {
      AllFieldsConcat(types, level, Visits(types, visited + TypesOf(level), Expand(types, level)));
    } else {
      assert Visits(types, visited + TypesOf(level), []) == [];
    }
  }

  /** The whole search. A struct type is explored at most once, so it ends on every finite
      type graph, recursive embedding included. */
  method Collect(types: Types, root: TypeId) returns (fields: seq<Field>)
    requires root in types
    ensures fields == Candidates(types, root)
  {
    var next, nextCount, visited: set<TypeId> := [Embed(root, [])], map[], {};
    fields := [];
    ghost var queued := Root(root);
    assert queued[..0] == [];
    ghost var rest := AllFields(types, Visits(types, visited, queued));
    while next != []
      invariant Known(types, queued) && next == FirstOfEach(queued)
      invariant forall t :: Tally(nextCount, t) > 1 <==> Count(queued, t) > 1
      invariant rest == AllFields(types, Visits(types, visited, queued))
      invariant fields + rest == Candidates(types, root)
      decreases types.Keys - visited, |next|
    {
      ghost var level := Level(visited, next, queued);
      assert level != [] ==> level[0].typ in types.Keys - visited;
      VisitsUnfold(types, visited, queued);
      ghost var before := fields;
      next, nextCount, visited, fields := ExploreLevel(types, next, nextCount, visited, fields, queued);
      queued := Expand(types, level);
      rest := AllFields(types, Visits(types, visited, queued));
      ConcatAssociates(before, AllFields(types, level), rest);
    }
  }
}
