/** What the breadth-first search finds, said without any search: each reachable struct once,
    by the least of the paths that lead to it. */
module EmbeddingTheorems {
  import opened Outcomes
  import opened FieldOrder
  import opened Embedding

  /** The struct that an index sequence leads to through embedded structs only. */
  function Follow(types: Types, root: TypeId, index: seq<nat>): Option<TypeId> {
    if index == [] then Some(root)
    else
      match Follow(types, root, index[..|index| - 1])
      case None => None
      case Some(p) => Step(types, p, index[|index| - 1])
  }

  function Step(types: Types, p: TypeId, i: nat): (r: Option<TypeId>)
    ensures r.Some? ==> r.value in types
  {
    if p in types && i < |types[p]| && Embeds(types, types[p][i]) then Some(types[p][i].typ) else None
  }

  /** A path goes on through struct fields that are embedded without a tag of their own. */
  lemma FollowStep(types: Types, root: TypeId, index: seq<nat>, i: nat, to: TypeId)
    ensures Follow(types, root, []) == Some(root)
    ensures Follow(types, root, index + [i]) == Some(to) <==>
      var from := Follow(types, root, index);
      from.Some? && from.value in types && i < |types[from.value]| &&
      var sf := types[from.value][i];
      sf.exported && !sf.skipped && sf.anonymous && sf.tagName == "" && sf.typ in types && sf.typ == to
  {
    FollowExtend(types, root, index, i);
  }

  /** Shorter paths first, then the order of byIndex. */
  predicate Before(a: seq<nat>, b: seq<nat>) {
    |a| < |b| || (|a| == |b| && LexLess(a, b))
  }

  /** No path to the same struct comes before this one. */
  ghost predicate IsLeast(types: Types, root: TypeId, index: seq<nat>) {
    && Follow(types, root, index).Some?
    && forall other :: Follow(types, root, other) == Follow(types, root, index) ==> !Before(other, index)
  }

  function Front(index: seq<nat>): seq<nat> {
    if index == [] then [] else index[..|index| - 1]
  }

  /** The paths of length `d` the search queues: one step from a struct explored before. */
  ghost predicate IsQueued(types: Types, root: TypeId, d: nat, index: seq<nat>) {
    |index| == d && Follow(types, root, index).Some? && (d == 0 || IsLeast(types, root, Front(index)))
  }

  /** Embedded again at the same depth, from an explored struct. */
  ghost predicate EmbeddedTwice(types: Types, root: TypeId, v: Visit) {
    exists a, b :: a != b
      && IsQueued(types, root, |v.index|, a) && Follow(types, root, a) == Some(v.typ)
      && IsQueued(types, root, |v.index|, b) && Follow(types, root, b) == Some(v.typ)
  }

  ghost predicate Right(types: Types, root: TypeId, v: Visit) {
    && Follow(types, root, v.index) == Some(v.typ)
    && IsLeast(types, root, v.index)
    && (v.twice <==> EmbeddedTwice(types, root, v))
  }

  // ----- Lexicographic facts -----

  lemma {:induction false} LexExtend(a: seq<int>, b: seq<int>, i: int, j: int)
    requires |a| == |b|
    ensures LexLess(a + [i], b + [j]) <==> LexLess(a, b) || (a == b && i < j)
  {
    if a == [] {
      assert b == [];
    } else {
      LexExtend(a[1..], b[1..], i, j);
      assert (a + [i])[1..] == a[1..] + [i] && (b + [j])[1..] == b[1..] + [j];
      assert a == [a[0]] + a[1..] && b == [b[0]] + b[1..];
    }
  }

  lemma BeforeExtend(a: seq<nat>, b: seq<nat>, i: nat)
    ensures Before(a + [i], b + [i]) <==> Before(a, b)
  {
    if |a| == |b| {
      LexExtend(a, b, i, i);
    }
  }

  lemma BeforeTotal(a: seq<nat>, b: seq<nat>)
    ensures a == b || Before(a, b) || Before(b, a)
    ensures !(Before(a, b) && Before(b, a)) && !Before(a, a)
  {
    LexTotal(a, b);
    LexTotal(a, a);
  }

  lemma NotBeforeTransitive(a: seq<nat>, b: seq<nat>, c: seq<nat>)
    requires !Before(b, a) && !Before(c, b)
    ensures !Before(c, a)
  {
    NotLessTransitive(a, b, c);
  }

  lemma FollowExtend(types: Types, root: TypeId, index: seq<nat>, i: nat)
    ensures Follow(types, root, index + [i]) ==
            match Follow(types, root, index) { case None => None case Some(p) => Step(types, p, i) }
  {
    assert (index + [i])[..|index + [i]| - 1] == index;
  }

  lemma SplitLast(index: seq<nat>)
    requires index != []
    ensures index == Front(index) + [index[|index| - 1]]
  {
  }

  /** A least path extends a least path. */
  lemma FrontOfLeast(types: Types, root: TypeId, index: seq<nat>)
    requires index != [] && IsLeast(types, root, index)
    ensures IsLeast(types, root, Front(index))
  {
    var front, i := Front(index), index[|index| - 1];
    SplitLast(index);
    FollowExtend(types, root, front, i);
    forall other | Follow(types, root, other) == Follow(types, root, front)
      ensures !Before(other, front)
    {
      FollowExtend(types, root, other, i);
      BeforeExtend(other, front, i);
    }
  }

  // ----- The invariant of the search -----

  ghost predicate StrictlySorted(queued: seq<Embed>) {
    forall i, j :: 0 <= i < j < |queued| ==> LexLess(queued[i].index, queued[j].index)
  }

  /** Before level `d`: everything nearer is visited, and the queue holds the paths of length `d`. */
  ghost predicate AtLevel(types: Types, root: TypeId, d: nat, visited: set<TypeId>, queued: seq<Embed>) {
    && StrictlySorted(queued)
    && (forall e :: e in queued ==> IsQueued(types, root, d, e.index) && Follow(types, root, e.index) == Some(e.typ))
    && (forall index :: IsQueued(types, root, d, index) ==> Embed(Follow(types, root, index).value, index) in queued)
    && (forall index :: |index| < d && Follow(types, root, index).Some? ==> Follow(types, root, index).value in visited)
    && (forall t :: t in visited ==> HasLeast(types, root, d, t))
  }

  ghost predicate HasLeast(types: Types, root: TypeId, d: nat, t: TypeId) {
    exists index :: |index| < d && IsLeast(types, root, index) && Follow(types, root, index) == Some(t)
  }

  /** The first of a type in a sorted queue is the least of that type. */
  lemma {:induction false} FirstIsLeast(queued: seq<Embed>, e: Embed, other: Embed)
    requires StrictlySorted(queued)
    requires e in FirstOfEach(queued) && other in queued && e.typ == other.typ
    ensures e == other || LexLess(e.index, other.index)
  {
    var before, last := queued[..|queued| - 1], queued[|queued| - 1];
    assert queued == before + [last];
    if other in before {
      FirstMentions(before, other.typ);
      assert Mentions(before, other.typ);
      assert e in FirstOfEach(before) by {
        FirstDistinct(queued);
        FirstOnlyOne(before, last, e);
      }
      FirstIsLeast(before, e, other);
    } else {
      assert e in queued;
      assert other == last;
      if e != last {
        assert e in before;
        var i :| 0 <= i < |before| && before[i] == e;
        assert queued[i] == e && queued[|queued| - 1] == last;
      }
    }
  }

  lemma FirstOnlyOne(before: seq<Embed>, last: Embed, e: Embed)
    requires e in FirstOfEach(before + [last]) && Mentions(before, e.typ)
    ensures e in FirstOfEach(before)
  {
    assert (before + [last])[..|before + [last]| - 1] == before;
    FirstMentions(before, last.typ);
  }

  /** A path whose last struct but one has a least path can go over it. */
  lemma QueuedInstead(types: Types, root: TypeId, d: nat, index: seq<nat>) returns (queuedPath: seq<nat>)
    requires |index| == d && Follow(types, root, index).Some?
    requires d > 0 ==> Follow(types, root, Front(index)).Some? ==> HasLeast(types, root, d, Follow(types, root, Front(index)).value)
    requires forall other :: |other| < d ==> Follow(types, root, other) != Follow(types, root, index)
    ensures |queuedPath| == d && IsQueued(types, root, d, queuedPath)
    ensures Follow(types, root, queuedPath) == Follow(types, root, index) && !Before(index, queuedPath)
  {
    hide LexLess, Step;
    queuedPath := index;
    if d > 0 {
      var front, i := Front(index), index[|index| - 1];
      SplitLast(index);
      FollowExtend(types, root, front, i);
      var least :| |least| < d && IsLeast(types, root, least) && Follow(types, root, least) == Follow(types, root, front);
      FollowExtend(types, root, least, i);
      queuedPath := least + [i];
      assert Front(queuedPath) == least;
      BeforeExtend(front, least, i);
    } else {
      BeforeTotal(index, index);
    }
  }

  /** At level `d`, a struct not visited yet has a least path, and the queue holds it first. */
  lemma LevelHasLeast(types: Types, root: TypeId, d: nat, visited: set<TypeId>, queued: seq<Embed>, index: seq<nat>)
    returns (e: Embed)
    requires AtLevel(types, root, d, visited, queued)
    requires |index| == d && Follow(types, root, index).Some? && Follow(types, root, index).value !in visited
    ensures e in FirstOfEach(queued) && Some(e.typ) == Follow(types, root, index) && !Before(index, e.index)
  {
    hide LexLess, FirstOfEach, Step, Follow, IsLeast;
    var t := Follow(types, root, index).value;
    var queuedPath := QueuedInstead(types, root, d, index);
    var q := Embed(t, queuedPath);
    assert q in queued;
    assert Mentions(queued, t);
    FirstMentions(queued, t);
    e :| e in FirstOfEach(queued) && e.typ == t;
    FirstIsLeast(queued, e, q);
    BeforeTotal(e.index, queuedPath);
    NotBeforeTransitive(e.index, queuedPath, index);
  }

  lemma {:induction false} CountTwo(queued: seq<Embed>, t: TypeId)
    ensures Count(queued, t) > 1 <==> exists i, j :: 0 <= i < j < |queued| && queued[i].typ == t && queued[j].typ == t
  {
    if queued != [] {
      var n := |queued| - 1;
      var before := queued[..n];
      CountTwo(before, t);
      CountMentions(before, t);
      if Mentions(before, t) && queued[n].typ == t {
        var e :| e in before && e.typ == t;
        var i :| 0 <= i < n && before[i] == e;
        assert queued[i].typ == t && queued[n].typ == t;
      }
      forall i, j | 0 <= i < j < |queued| && queued[i].typ == t && queued[j].typ == t
        ensures Count(queued, t) > 1
      {
        assert before[i] == queued[i] && queued[i] in before;
        if j < n {
          assert before[j] == queued[j];
        }
      }
      if Count(before, t) > 1 {
        var i, j :| 0 <= i < j < |before| && before[i].typ == t && before[j].typ == t;
        assert queued[i].typ == t && queued[j].typ == t;
      }
    }
  }

  lemma TwiceMeansTwo(types: Types, root: TypeId, d: nat, visited: set<TypeId>, queued: seq<Embed>, v: Visit)
    requires AtLevel(types, root, d, visited, queued) && |v.index| == d
    ensures Count(queued, v.typ) > 1 <==> EmbeddedTwice(types, root, v)
  {
    CountTwo(queued, v.typ);
    if Count(queued, v.typ) > 1 {
      var i, j :| 0 <= i < j < |queued| && queued[i].typ == v.typ && queued[j].typ == v.typ;
      LexTotal(queued[i].index, queued[j].index);
      assert queued[i] in queued && queued[j] in queued;
    }
    if EmbeddedTwice(types, root, v) {
      var a, b :| a != b
        && IsQueued(types, root, d, a) && Follow(types, root, a) == Some(v.typ)
        && IsQueued(types, root, d, b) && Follow(types, root, b) == Some(v.typ);
      var i :| 0 <= i < |queued| && queued[i] == Embed(v.typ, a);
      var j :| 0 <= j < |queued| && queued[j] == Embed(v.typ, b);
      assert i < j || j < i;
    }
  }

  /** Every struct a level explores is explored rightly. */
  lemma LevelRight(types: Types, root: TypeId, d: nat, visited: set<TypeId>, queued: seq<Embed>, v: Visit)
    requires AtLevel(types, root, d, visited, queued)
    requires v in Level(visited, FirstOfEach(queued), queued)
    ensures Right(types, root, v) && |v.index| == d
  {
    var e := Embed(v.typ, v.index);
    assert e in queued;
    forall other | Follow(types, root, other) == Some(v.typ)
      ensures !Before(other, v.index)
    {
      if |other| == d {
        var first := LevelHasLeast(types, root, d, visited, queued, other);
        FirstDistinct(queued);
        assert first == e;
      }
    }
    TwiceMeansTwo(types, root, d, visited, queued, v);
  }

  /** No least path of the level's length is missed. */
  lemma LevelComplete(types: Types, root: TypeId, d: nat, visited: set<TypeId>, queued: seq<Embed>, index: seq<nat>)
    requires AtLevel(types, root, d, visited, queued)
    requires IsLeast(types, root, index) && |index| == d
    ensures exists v :: v in Level(visited, FirstOfEach(queued), queued) && v.index == index
  {
    var t := Follow(types, root, index).value;
    assert t in visited ==> HasLeast(types, root, d, t);
    var e := LevelHasLeast(types, root, d, visited, queued, index);
    BeforeTotal(e.index, index);
    assert Follow(types, root, e.index) == Follow(types, root, index);
    var v := Visit(e.typ, e.index, Count(queued, e.typ) > 1);
    assert v in Level(visited, FirstOfEach(queued), queued);
  }

  // ----- The next level -----

  lemma {:induction false} EmbedsMembers(types: Types, v: Visit, n: nat)
    requires v.typ in types && n <= |types[v.typ]|
    ensures forall e :: e in EmbedsOf(types, v, n) <==>
      |e.index| == |v.index| + 1 && Front(e.index) == v.index && e.index[|v.index|] < n && Step(types, v.typ, e.index[|v.index|]) == Some(e.typ)
    ensures StrictlySorted(EmbedsOf(types, v, n))
  {
    if n > 0 {
      EmbedsMembers(types, v, n - 1);
      var before, index := EmbedsOf(types, v, n - 1), v.index + [n - 1];
      assert Front(index) == v.index;
      forall e: Embed | |e.index| == |v.index| + 1 && Front(e.index) == v.index && e.index[|v.index|] == n - 1
        ensures e.index == index
      {
        SplitLast(e.index);
      }
      forall e | e in before
        ensures LexLess(e.index, index)
      {
        SplitLast(e.index);
        LexExtend(v.index, v.index, e.index[|v.index|], n - 1);
      }
      assert forall i :: 0 <= i < |before| ==> before[i] in before;
    }
  }

  ghost predicate LevelSorted(level: seq<Visit>, d: nat) {
    && (forall v :: v in level ==> |v.index| == d)
    && forall i, j :: 0 <= i < j < |level| ==> LexLess(level[i].index, level[j].index)
  }

  lemma {:induction false} ExpandMembers(types: Types, level: seq<Visit>, d: nat)
    requires LevelSorted(level, d) && forall v :: v in level ==> v.typ in types
    ensures forall e :: e in Expand(types, level) <==>
      exists v :: v in level && |e.index| == d + 1 && Front(e.index) == v.index && Step(types, v.typ, e.index[d]) == Some(e.typ)
    ensures StrictlySorted(Expand(types, level))
  {
    if level != [] {
      var before, v := level[..|level| - 1], level[|level| - 1];
      assert level == before + [v];
      ExpandMembers(types, before, d);
      EmbedsMembers(types, v, |types[v.typ]|);
      var left, right := Expand(types, before), EmbedsOf(types, v, |types[v.typ]|);
      forall a, b | a in left && b in right
        ensures LexLess(a.index, b.index)
      {
        var w :| w in before && Front(a.index) == w.index;
        var k :| 0 <= k < |before| && before[k] == w;
        assert LexLess(level[k].index, level[|level| - 1].index);
        SplitLast(a.index);
        SplitLast(b.index);
        LexExtend(w.index, v.index, a.index[d], b.index[d]);
      }
      assert forall i :: 0 <= i < |left| ==> left[i] in left;
      assert forall i :: 0 <= i < |right| ==> right[i] in right;
    }
  }

  lemma {:induction false} FirstSorted(queued: seq<Embed>)
    requires StrictlySorted(queued)
    ensures StrictlySorted(FirstOfEach(queued))
  {
    if queued != [] {
      var before, last := queued[..|queued| - 1], queued[|queued| - 1];
      FirstSorted(before);
      var first := FirstOfEach(before);
      forall i | 0 <= i < |first|
        ensures LexLess(first[i].index, last.index)
      {
        assert first[i] in before;
        var k :| 0 <= k < |before| && before[k] == first[i];
        assert queued[k] == first[i];
      }
    }
  }

  lemma {:induction false} LevelIsSorted(visited: set<TypeId>, queue: seq<Embed>, queued: seq<Embed>, d: nat)
    requires StrictlySorted(queue) && forall e :: e in queue ==> |e.index| == d
    ensures LevelSorted(Level(visited, queue, queued), d)
  {
    if queue != [] {
      var before, last := queue[..|queue| - 1], queue[|queue| - 1];
      assert queue == before + [last];
      LevelIsSorted(visited, before, queued, d);
      var level := Level(visited, before, queued);
      forall i | 0 <= i < |level|
        ensures LexLess(level[i].index, last.index)
      {
        assert level[i] in level;
        var e := Embed(level[i].typ, level[i].index);
        var k :| 0 <= k < |before| && before[k] == e;
        assert queue[k] == e;
      }
    }
  }

  lemma NextLevel(types: Types, root: TypeId, d: nat, visited: set<TypeId>, queued: seq<Embed>)
    requires AtLevel(types, root, d, visited, queued) && Known(types, queued)
    ensures var level := Level(visited, FirstOfEach(queued), queued);
      AtLevel(types, root, d + 1, visited + TypesOf(level), Expand(types, level))
  {
    var level := Level(visited, FirstOfEach(queued), queued);
    FirstSorted(queued);
    LevelIsSorted(visited, FirstOfEach(queued), queued, d);
    ExpandMembers(types, level, d);
    NextQueue(types, root, d, visited, queued);
    NextVisited(types, root, d, visited, queued);
  }

  lemma NextQueue(types: Types, root: TypeId, d: nat, visited: set<TypeId>, queued: seq<Embed>)
    requires AtLevel(types, root, d, visited, queued) && Known(types, queued)
    requires LevelSorted(Level(visited, FirstOfEach(queued), queued), d)
    ensures var next := Expand(types, Level(visited, FirstOfEach(queued), queued));
      && (forall e :: e in next ==> IsQueued(types, root, d + 1, e.index) && Follow(types, root, e.index) == Some(e.typ))
      && (forall index :: IsQueued(types, root, d + 1, index) ==> Embed(Follow(types, root, index).value, index) in next)
  {
    var level := Level(visited, FirstOfEach(queued), queued);
    ExpandMembers(types, level, d);
    forall e | e in Expand(types, level)
      ensures IsQueued(types, root, d + 1, e.index) && Follow(types, root, e.index) == Some(e.typ)
    {
      var v :| v in level && |e.index| == d + 1 && Front(e.index) == v.index && Step(types, v.typ, e.index[d]) == Some(e.typ);
      LevelRight(types, root, d, visited, queued, v);
    }
    forall index | IsQueued(types, root, d + 1, index)
      ensures Embed(Follow(types, root, index).value, index) in Expand(types, level)
    {
      LevelComplete(types, root, d, visited, queued, Front(index));
      var v :| v in level && v.index == Front(index);
      LevelRight(types, root, d, visited, queued, v);
    }
  }

  lemma NextVisited(types: Types, root: TypeId, d: nat, visited: set<TypeId>, queued: seq<Embed>)
    requires AtLevel(types, root, d, visited, queued)
    ensures var visited' := visited + TypesOf(Level(visited, FirstOfEach(queued), queued));
      && (forall index :: |index| < d + 1 && Follow(types, root, index).Some? ==> Follow(types, root, index).value in visited')
      && (forall t :: t in visited' ==> HasLeast(types, root, d + 1, t))
  {
    var level := Level(visited, FirstOfEach(queued), queued);
    forall index | |index| == d && Follow(types, root, index).Some? && Follow(types, root, index).value !in visited
      ensures Follow(types, root, index).value in TypesOf(level)
    {
      var e := LevelHasLeast(types, root, d, visited, queued, index);
      assert Visit(e.typ, e.index, Count(queued, e.typ) > 1) in level;
    }
    forall t | t in visited
      ensures HasLeast(types, root, d + 1, t)
    {
      assert HasLeast(types, root, d, t);
    }
    forall v | v in level
      ensures HasLeast(types, root, d + 1, v.typ)
    {
      LevelRight(types, root, d, visited, queued, v);
    }
  }

  // ----- Main results -----

  lemma LeastPrefix(types: Types, root: TypeId, index: seq<nat>, d: nat)
    requires IsLeast(types, root, index) && d <= |index|
    ensures IsLeast(types, root, index[..d])
    decreases |index|
  {
    if d < |index| {
      FrontOfLeast(types, root, index);
      assert Front(index)[..d] == index[..d];
      LeastPrefix(types, root, Front(index), d);
    } else {
      assert index[..d] == index;
    }
  }

  lemma EmptyLevelIsLast(types: Types, root: TypeId, d: nat, visited: set<TypeId>, queued: seq<Embed>)
    requires AtLevel(types, root, d, visited, queued)
    ensures Level(visited, FirstOfEach(queued), queued) == [] ==> forall index :: IsLeast(types, root, index) ==> |index| < d
  {
    forall index | IsLeast(types, root, index) && |index| >= d
      ensures Level(visited, FirstOfEach(queued), queued) != []
    {
      LeastPrefix(types, root, index, d);
      LevelComplete(types, root, d, visited, queued, index[..d]);
    }
  }

  /** From any level on, the search explores exactly the structs with a least path that long. */
  lemma {:induction false} VisitsFrom(types: Types, root: TypeId, d: nat, visited: set<TypeId>, queued: seq<Embed>)
    requires AtLevel(types, root, d, visited, queued) && Known(types, queued)
    ensures forall v :: v in Visits(types, visited, queued) ==> Right(types, root, v) && v.typ !in visited
    ensures forall index :: IsLeast(types, root, index) && |index| >= d ==>
      exists v :: v in Visits(types, visited, queued) && v.index == index
    ensures DistinctVisits(Visits(types, visited, queued))
    decreases types.Keys - visited
  {
    hide AtLevel, IsLeast, Right, FirstOfEach, Expand, Level, LexLess;
    var level := Level(visited, FirstOfEach(queued), queued);
    forall v | v in level
      ensures Right(types, root, v) && |v.index| == d
    {
      LevelRight(types, root, d, visited, queued, v);
    }
    EmptyLevelIsLast(types, root, d, visited, queued);
    if level != [] {
      assert level[0] in level && level[0].typ in types.Keys - visited;
      ExpandKnown(types, level);
      NextLevel(types, root, d, visited, queued);
      var rest := Visits(types, visited + TypesOf(level), Expand(types, level));
      VisitsFrom(types, root, d + 1, visited + TypesOf(level), Expand(types, level));
      forall index | IsLeast(types, root, index) && |index| >= d
        ensures exists v :: v in level + rest && v.index == index
      {
        if |index| == d {
          LevelComplete(types, root, d, visited, queued, index);
        }
      }
      LevelDistinct(visited, queued);
      JoinDistinct(level, rest);
    }
  }

  ghost predicate DistinctVisits(visits: seq<Visit>) {
    forall i, j :: 0 <= i < j < |visits| ==> visits[i].typ != visits[j].typ
  }

  lemma LevelDistinct(visited: set<TypeId>, queued: seq<Embed>)
    ensures DistinctVisits(Level(visited, FirstOfEach(queued), queued))
  {
    FirstDistinct(queued);
    LevelKeepsDistinct(visited, FirstOfEach(queued), queued);
  }

  lemma {:induction false} LevelKeepsDistinct(visited: set<TypeId>, queue: seq<Embed>, queued: seq<Embed>)
    requires DistinctTypes(queue)
    ensures DistinctVisits(Level(visited, queue, queued))
  {
    if queue != [] {
      var n := |queue| - 1;
      LevelKeepsDistinct(visited, queue[..n], queued);
      assert queue[..n + 1] == queue;
      NotYetThisLevel(visited, queue, queued, n);
      var before := Level(visited, queue[..n], queued);
      assert forall i :: 0 <= i < |before| ==> before[i] in before;
    }
  }

  lemma JoinDistinct(level: seq<Visit>, rest: seq<Visit>)
    requires DistinctVisits(level) && DistinctVisits(rest)
    requires forall v :: v in rest ==> v.typ !in TypesOf(level)
    ensures DistinctVisits(level + rest)
  {
    assert forall i :: 0 <= i < |level| ==> level[i] in level;
    assert forall i :: 0 <= i < |rest| ==> rest[i] in rest;
  }

  lemma RootLevel(types: Types, root: TypeId)
    requires root in types
    ensures AtLevel(types, root, 0, {}, Root(root)) && Known(types, Root(root))
  {
  }

  /** The search explores each struct that embedding can reach, once, by the least path to it. */
  lemma VisitsExactly(types: Types, root: TypeId)
    requires root in types
    ensures var visits := Visits(types, {}, Root(root));
      && (forall v :: v in visits ==> Right(types, root, v))
      && (forall index :: IsLeast(types, root, index) ==> exists v :: v in visits && v.index == index)
      && DistinctVisits(visits)
  {
    RootLevel(types, root);
    VisitsFrom(types, root, 0, {}, Root(root));
  }

  // ----- The candidate list -----

  ghost predicate FieldAt(types: Types, v: Visit, n: nat, f: Field)
    requires v.typ in types && n <= |types[v.typ]|
  {
    f.index != [] && Front(f.index) == v.index &&
    var i := f.index[|f.index| - 1];
    i < n && Describes(types, f, types[v.typ][i])
  }

  lemma {:induction false} FieldsCount(types: Types, v: Visit, n: nat, f: Field)
    requires v.typ in types && n <= |types[v.typ]|
    ensures multiset(FieldsOf(types, v, n))[f] == if !FieldAt(types, v, n, f) then 0 else if v.twice then 2 else 1
  {
    if n > 0 {
      FieldsCount(types, v, n - 1, f);
      LastField(types, v, n, f);
      LastCount(types, v, n, f);
    }
  }

  lemma LastField(types: Types, v: Visit, n: nat, f: Field)
    requires v.typ in types && 0 < n <= |types[v.typ]|
    ensures var sf := types[v.typ][n - 1];
      FieldAt(types, v, n, f) <==> FieldAt(types, v, n - 1, f) || (Recorded(types, sf) && f == FieldOf(sf, v.index + [n - 1]))
    ensures FieldAt(types, v, n - 1, f) ==> f.index != v.index + [n - 1]
  {
    var sf := types[v.typ][n - 1];
    FieldOfDescribes(types, f, sf);
    hide Recorded, Describes;
    if f.index != [] {
      SplitLast(f.index);
    }
    assert f == FieldOf(sf, v.index + [n - 1]) ==> f.index == v.index + [n - 1];
    assert f.index == v.index + [n - 1] ==> Front(f.index) == v.index;
  }

  lemma LastCount(types: Types, v: Visit, n: nat, f: Field)
    requires v.typ in types && 0 < n <= |types[v.typ]|
    ensures var sf := types[v.typ][n - 1];
      multiset(FieldsOf(types, v, n))[f] == multiset(FieldsOf(types, v, n - 1))[f] +
        if Recorded(types, sf) && f == FieldOf(sf, v.index + [n - 1]) then (if v.twice then 2 else 1) else 0
  {
    hide Recorded, FieldOf;
    var g := FieldOf(types[v.typ][n - 1], v.index + [n - 1]);
    assert multiset([g, g])[f] == if f == g then 2 else 0;
    assert multiset([g])[f] == if f == g then 1 else 0;
  }

  ghost predicate DistinctIndexes(visits: seq<Visit>) {
    forall i, j :: 0 <= i < j < |visits| ==> visits[i].index != visits[j].index
  }

  lemma {:induction false} AllFieldsCount(types: Types, visits: seq<Visit>, f: Field)
    requires DistinctIndexes(visits) && forall v :: v in visits ==> v.typ in types
    ensures forall v :: v in visits && FieldAt(types, v, |types[v.typ]|, f) ==>
      multiset(AllFields(types, visits))[f] == if v.twice then 2 else 1
    ensures (forall v :: v in visits ==> !FieldAt(types, v, |types[v.typ]|, f)) ==> multiset(AllFields(types, visits))[f] == 0
  {
    hide FieldsOf, Describes;
    if visits != [] {
      var n := |visits| - 1;
      var before, last := visits[..n], visits[n];
      assert visits == before + [last];
      AllFieldsCount(types, before, f);
      FieldsCount(types, last, |types[last.typ]|, f);
      forall v | v in before && FieldAt(types, v, |types[v.typ]|, f)
        ensures !FieldAt(types, last, |types[last.typ]|, f)
      {
        var i :| 0 <= i < n && before[i] == v;
        assert visits[i].index != visits[n].index;
      }
    }
  }

  /** A candidate: a recorded field of a reachable struct, indexed by the least path to it. */
  ghost predicate IsCandidate(types: Types, root: TypeId, f: Field) {
    f.index != [] && IsLeast(types, root, Front(f.index)) &&
    var p, i := Follow(types, root, Front(f.index)).value, f.index[|f.index| - 1];
    p in types && i < |types[p]| && Describes(types, f, types[p][i])
  }

  /** Every exported struct field that its tag does not skip is a candidate, by the least path to its
      struct, unless it is an embedded struct without a tag. */
  lemma CandidateAt(types: Types, root: TypeId, path: seq<nat>, i: nat)
    requires IsLeast(types, root, path)
    requires var p := Follow(types, root, path).value; p in types && i < |types[p]|
    ensures var sf := types[Follow(types, root, path).value][i];
      var f := Field(if sf.tagName != "" then sf.tagName else sf.name, sf.tagName != "", path + [i], sf.typ, sf.omitEmpty, sf.quoted);
      IsCandidate(types, root, f) <==> sf.exported && !sf.skipped && !(sf.anonymous && sf.tagName == "" && sf.typ in types)
  {
    assert Front(path + [i]) == path;
  }

  ghost predicate ParentTwice(types: Types, root: TypeId, f: Field)
    requires IsCandidate(types, root, f)
  {
    EmbeddedTwice(types, root, Visit(Follow(types, root, Front(f.index)).value, Front(f.index), true))
  }

  /** The candidate list, said without the search: every recorded field of every reachable struct,
      by the least path to the struct; doubled when the struct is embedded again at its depth. */
  lemma CandidatesExactly(types: Types, root: TypeId, f: Field)
    requires root in types
    ensures multiset(Candidates(types, root))[f] ==
      if !IsCandidate(types, root, f) then 0 else if ParentTwice(types, root, f) then 2 else 1
  {
    var visits := Visits(types, {}, Root(root));
    VisitsExactly(types, root);
    forall i, j | 0 <= i < j < |visits|
      ensures visits[i].index != visits[j].index
    {
      assert visits[i] in visits && visits[j] in visits;
      assert Right(types, root, visits[i]) && Right(types, root, visits[j]);
    }
    AllFieldsCount(types, visits, f);
    if IsCandidate(types, root, f) {
      var v :| v in visits && v.index == Front(f.index);
      assert Right(types, root, v) && FieldAt(types, v, |types[v.typ]|, f);
      assert EmbeddedTwice(types, root, v) <==> ParentTwice(types, root, f);
    } else {
      forall v | v in visits
        ensures !FieldAt(types, v, |types[v.typ]|, f)
      {
        assert Right(types, root, v);
      }
    }
  }
}
