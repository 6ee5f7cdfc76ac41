/** How typeFields chooses among the candidates, in place. */
module Dominance {
  import opened Outcomes
  import opened FieldOrder
  import opened Sorting
  import opened Embedding
  import opened EmbeddingTheorems

  /** Go's rule between two fields of one name: less deep, or as deep and the only one tagged. */
  predicate Beats(f: Field, g: Field) {
    |f.index| < |g.index| || (|f.index| == |g.index| && f.tagged && !g.tagged)
  }

  /** `f` occurs once and beats every other candidate of its name. */
  ghost predicate Survives(f: Field, candidates: multiset<Field>) {
    f in candidates && forall g :: g in candidates - multiset{f} && g.name == f.name ==> Beats(f, g)
  }

  /** The survivor among fields of one name, or none. */
  ghost predicate IsWinner(r: Option<Field>, fields: seq<Field>) {
    match r
    case Some(f) => Survives(f, multiset(fields))
    case None => forall f :: !Survives(f, multiset(fields))
  }

  ghost predicate OneName(fields: seq<Field>) {
    forall i, j :: 0 <= i < |fields| && 0 <= j < |fields| ==> fields[i].name == fields[j].name
  }

  ghost predicate ByDepth(fields: seq<Field>) {
    forall i, j :: 0 <= i < j < |fields| ==> |fields[i].index| <= |fields[j].index|
  }

  lemma WithoutPosition<T>(s: seq<T>, i: nat)
    requires i < |s|
    ensures multiset(s) - multiset{s[i]} == multiset(s[..i] + s[i + 1..])
  {
    assert s == s[..i] + [s[i]] + s[i + 1..];
  }

  lemma PositionsWithout<T>(s: seq<T>, i: nat, rest: seq<T>)
    requires i < |s| && rest == s[..i] + s[i + 1..]
    ensures forall j :: 0 <= j < |s| && j != i ==> s[j] in rest
    ensures forall g :: g in rest ==> exists j :: 0 <= j < |s| && j != i && s[j] == g
  {
    forall j | 0 <= j < |s| && j != i
      ensures s[j] in rest
    {
      assert s[j] == rest[if j < i then j else j - 1];
    }
    forall g | g in rest
      ensures exists j :: 0 <= j < |s| && j != i && s[j] == g
    {
      var k :| 0 <= k < |rest| && rest[k] == g;
      assert s[if k < i then k else k + 1] == g;
    }
  }

  lemma SurvivesAt(fields: seq<Field>, i: nat)
    requires i < |fields| && OneName(fields)
    ensures Survives(fields[i], multiset(fields)) <==>
            forall j :: 0 <= j < |fields| && j != i ==> Beats(fields[i], fields[j])
  {
    hide Beats;
    var rest := fields[..i] + fields[i + 1..];
    WithoutPosition(fields, i);
    PositionsWithout(fields, i, rest);
    assert forall g :: g in rest <==> g in multiset(rest);
  }

  /** The winner among the fields of one name, which are sorted by depth. */
  method DominantField(fields: seq<Field>) returns (r: Option<Field>)
    requires fields != [] && OneName(fields) && ByDepth(fields)
    ensures IsWinner(r, fields)
    ensures forall i :: 0 <= i < |fields| ==> ((forall j :: 0 <= j < |fields| && j != i ==>
      |fields[i].index| < |fields[j].index| || (|fields[i].index| == |fields[j].index| && fields[i].tagged && !fields[j].tagged))
      <==> r == Some(fields[i]))
  {
    var length := |fields[0].index|;
    var tagged := -1;
    var kept := |fields|;
    for i := 0 to |fields|
      invariant kept == |fields|
      invariant forall k :: 0 <= k < i ==> |fields[k].index| == length
      invariant -1 <= tagged < i
      invariant tagged >= 0 ==> fields[tagged].tagged
      invariant forall k :: 0 <= k < i && k != tagged ==> !fields[k].tagged
    {
      var f := fields[i];
      if |f.index| > length {
        kept := i;
        break;
      }
      if f.tagged {
        if tagged >= 0 {
          // Neither of two tagged fields hides the other.
          TwoRivals(fields, tagged, i);
          return None;
        }
        tagged := i;
      }
    }
    if tagged >= 0 {
      SurvivesAt(fields, tagged);
      return Some(fields[tagged]);
    }
    if kept > 1 {
      TwoRivals(fields, 0, 1);
      return None;
    }
    SurvivesAt(fields, 0);
    return Some(fields[0]);
  }

  /** Two least-deep fields that do not beat each other leave no survivor, unless some other
      least-deep field is tagged. */
  lemma TwoRivals(fields: seq<Field>, i: nat, j: nat)
    requires i < j < |fields| && OneName(fields) && ByDepth(fields)
    requires |fields[0].index| == |fields[i].index| == |fields[j].index|
    requires fields[i].tagged == fields[j].tagged
    requires !fields[i].tagged ==> forall k :: 0 <= k < |fields| && |fields[k].index| == |fields[0].index| ==> !fields[k].tagged
    ensures forall f :: !Survives(f, multiset(fields))
  {
    forall k | 0 <= k < |fields|
      ensures !Survives(fields[k], multiset(fields))
    {
      SurvivesAt(fields, k);
      var rival := if k == i then j else i;
      assert !Beats(fields[k], fields[rival]);
    }
  }

  // ----- In-place compaction -----

  /** What sorting by name achieves: equal names stand together, less deep fields first. */
  ghost predicate Grouped(s: seq<Field>) {
    && (forall i, j, k :: 0 <= i <= j <= k < |s| && s[i].name == s[k].name ==> s[j].name == s[i].name)
    && forall i, j :: 0 <= i < j < |s| && s[i].name == s[j].name ==> |s[i].index| <= |s[j].index|
  }

  lemma SortedIsGrouped(s: seq<Field>)
    requires SortedBy(s, ByNameLess)
    ensures Grouped(s)
  {
    forall i, j, k | 0 <= i <= j <= k < |s| && s[i].name == s[k].name
      ensures s[j].name == s[i].name
    {
      SameCodes(s[i].name, s[j].name);
      LexTotal(Codes(s[i].name), Codes(s[j].name));
      assert i < j ==> !ByNameLess(s[j], s[i]);
      assert j < k ==> !ByNameLess(s[k], s[j]);
    }
    forall i, j | 0 <= i < j < |s| && s[i].name == s[j].name
      ensures |s[i].index| <= |s[j].index|
    {
      assert !ByNameLess(s[j], s[i]);
    }
  }

  /** Fields of different names do not compete. */
  lemma GroupsApart(f: Field, before: multiset<Field>, group: multiset<Field>)
    requires forall x, y :: x in before && y in group ==> x.name != y.name
    ensures Survives(f, before + group) <==> Survives(f, before) || Survives(f, group)
  {
    if f in before {
      assert forall g :: g in before + group - multiset{f} && g.name == f.name ==> g in before - multiset{f};
      assert forall g :: g in before - multiset{f} ==> g in before + group - multiset{f};
    } else if f in group {
      assert forall g :: g in before + group - multiset{f} && g.name == f.name ==> g in group - multiset{f};
      assert forall g :: g in group - multiset{f} ==> g in before + group - multiset{f};
    }
  }

  ghost predicate Apart(done: multiset<Field>, rest: seq<Field>) {
    forall x, y :: x in done && y in rest ==> x.name != y.name
  }

  ghost predicate DistinctNames(out: seq<Field>) {
    forall i, j :: 0 <= i < j < |out| ==> out[i].name != out[j].name
  }

  /** Exactly the survivors of `candidates`, each name once. */
  ghost predicate IsSelection(out: seq<Field>, candidates: multiset<Field>) {
    DistinctNames(out) && forall f :: f in out <==> Survives(f, candidates)
  }

  /** Adding the winner of the next name to a selection. */
  lemma SelectMore(out: seq<Field>, winner: Option<Field>, done: multiset<Field>, group: seq<Field>, out': seq<Field>)
    requires IsSelection(out, done) && Apart(done, group) && OneName(group) && IsWinner(winner, group)
    requires out' == out + (if winner.Some? then [winner.value] else [])
    ensures IsSelection(out', done + multiset(group))
  {
    forall f
      ensures f in out' <==> Survives(f, done + multiset(group))
    {
      GroupsApart(f, done, multiset(group));
      if Survives(f, multiset(group)) && winner.Some? {
        OnlyOneSurvivor(group, f, winner.value);
      }
    }
    if winner.Some? {
      assert winner.value in group;
      forall i | 0 <= i < |out|
        ensures out[i].name != winner.value.name
      {
        assert out[i] in out;
        assert out[i] in done;
      }
    }
  }

  lemma OnlyOneSurvivor(group: seq<Field>, f: Field, g: Field)
    requires OneName(group) && Survives(f, multiset(group)) && Survives(g, multiset(group))
    ensures f == g
  {
    var i :| 0 <= i < |group| && group[i] == f;
    var j :| 0 <= j < |group| && group[j] == g;
    assert f.name == g.name;
    assert f != g ==> g in multiset(group) - multiset{f} && f in multiset(group) - multiset{g};
  }

  /** The fields from `i` on that have the name of field `i`. */
  method NextGroup(a: array<Field>, i: nat) returns (group: seq<Field>)
    requires i < a.Length
    ensures group != [] && i + |group| <= a.Length && OneName(group)
    ensures group == a[..][i..i + |group|]
    ensures i + |group| < a.Length ==> a[..][i + |group|].name != a[..][i].name
  {
    var advance := 1;
    while i + advance < a.Length && a[i + advance].name == a[i].name
      invariant 1 <= advance <= a.Length - i
      invariant forall k :: i <= k < i + advance ==> a[k].name == a[i].name
    {
      advance := advance + 1;
    }
    group := a[i..i + advance];
  }

  /** `out = append(out, winner)` if there is one; `out` is the front of the array, and reading
      resumes at `unread`. */
  method Append(a: array<Field>, w: nat, winner: Option<Field>, ghost unread: nat) returns (w': nat)
    requires w < unread <= a.Length
    modifies a
    ensures w' == if winner.Some? then w + 1 else w
    ensures a[..][..w'] == old(a[..])[..w] + if winner.Some? then [winner.value] else []
    ensures a[..][unread..] == old(a[..])[unread..]
  {
    w' := w;
    if winner.Some? {
      a[w] := winner.value;
      w' := w + 1;
    }
  }

  /** What the loop over names keeps: the front of the array holds the survivors of what was
      read, the rest is still unread; the write index `w` never passes the read index `i`. */
  ghost predicate Reading(now: seq<Field>, w: nat, i: nat, done: multiset<Field>, rest: seq<Field>) {
    && w <= i <= |now| && now[i..] == rest
    && IsSelection(now[..w], done)
    && Apart(done, rest) && Grouped(rest)
  }

  /** `out := fields[:0]` and the appends to it: the survivors overwrite the front of the very
      array that is being read. */
  method Compact(a: array<Field>) returns (w: nat)
    requires SortedBy(a[..], ByNameLess)
    modifies a
    ensures w <= a.Length && IsSelection(a[..w], multiset(old(a[..])))
  {
    SortedIsGrouped(a[..]);
    var i := 0;
    w := 0;
    ghost var done: multiset<Field>, rest := multiset{}, a[..];
    while i < a.Length
      invariant Reading(a[..], w, i, done, rest) && done + multiset(rest) == multiset(old(a[..]))
    {
      w, i, done, rest := CompactName(a, w, i, done, rest);
    }
    assert rest == [] && a[..][..w] == a[..w];
  }

  /** One round: the fields of one name. */
  method CompactName(a: array<Field>, w: nat, i: nat, ghost done: multiset<Field>, ghost rest: seq<Field>)
    returns (w': nat, i': nat, ghost done': multiset<Field>, ghost rest': seq<Field>)
    requires i < a.Length && Reading(a[..], w, i, done, rest)
    modifies a
    ensures i < i' && Reading(a[..], w', i', done', rest')
    ensures done' + multiset(rest') == done + multiset(rest)
  {
    hide Grouped, IsSelection, IsWinner, Apart, OneName, ByDepth;
    ghost var out := a[..][..w];
    var group := NextGroup(a, i);
    i' := i + |group|;
    done', rest' := done + multiset(group), rest[|group|..];
    NextName(a[..], i, done, rest, group);
    var winner := Winner(group);
    w' := Append(a, w, winner, i');
    SelectMore(out, winner, done, group, a[..][..w']);
  }

  /** The fields of the next name are apart from all others. */
  lemma NextName(now: seq<Field>, i: nat, done: multiset<Field>, rest: seq<Field>, group: seq<Field>)
    requires i < |now| && now[i..] == rest && Apart(done, rest) && Grouped(rest)
    requires group != [] && i + |group| <= |now| && group == now[i..i + |group|] && OneName(group)
    requires i + |group| < |now| ==> now[i + |group|].name != now[i].name
    ensures |group| <= |rest| && rest == group + rest[|group|..] && now[i + |group|..] == rest[|group|..]
    ensures Apart(done, group) && ByDepth(group)
    ensures Apart(done + multiset(group), rest[|group|..]) && Grouped(rest[|group|..])
  {
    hide Grouped;
    var n := |group|;
    assert group == rest[..n] && now[i + n..] == rest[n..];
    assert n < |rest| ==> rest[n] == now[i + n];
    assert group[0] == rest[0] == now[i];
    SplitGroup(rest, group, rest[n..]);
    assert forall y :: y in rest[n..] ==> y in rest;
    assert forall x :: x in group ==> x in rest;
  }

  lemma GroupedPart(rest: seq<Field>, group: seq<Field>, later: seq<Field>)
    requires rest == group + later && Grouped(rest) && OneName(group)
    ensures ByDepth(group) && Grouped(later)
  {
    assert forall k :: 0 <= k < |group| ==> group[k] == rest[k];
    assert forall k :: 0 <= k < |later| ==> later[k] == rest[|group| + k];
  }

  lemma SplitGroup(rest: seq<Field>, group: seq<Field>, later: seq<Field>)
    requires rest == group + later && Grouped(rest) && group != [] && OneName(group)
    requires later != [] ==> later[0].name != group[0].name
    ensures ByDepth(group) && Grouped(later)
    ensures forall x, y :: x in group && y in later ==> x.name != y.name
  {
    GroupedPart(rest, group, later);
    assert later != [] ==> later[0] == rest[|group|];
    forall x, y | x in group && y in later
      ensures x.name != y.name
    {
      var k :| 0 <= k < |later| && later[k] == y;
      assert rest[0].name != rest[|group|].name;
      assert rest[|group| + k] == y;
    }
  }

  /** One round of the loop over names: a single field wins at once. */
  method Winner(group: seq<Field>) returns (r: Option<Field>)
    requires group != [] && OneName(group) && ByDepth(group)
    ensures IsWinner(r, group)
  {
    if |group| == 1 {
      SurvivesAt(group, 0);
      return Some(group[0]);
    }
    r := DominantField(group);
  }

  // ----- typeFields -----

  /** sort.Sort on the whole array. */
  method SortArray(a: array<Field>, less: Less<Field>)
    requires IsOrder(less)
    modifies a
    ensures multiset(a[..]) == multiset(old(a[..])) && SortedBy(a[..], less)
  {
    var s := Sort(a[..], less);
    SortSorted(a[..], less);
    forall i | 0 <= i < a.Length {
      a[i] := s[i];
    }
    assert a[..] == s;
  }

  /** What typeFields should return: the fields that embedding reaches and that win, by Go's rule,
      over every other such field of their name. */
  ghost predicate IsDominant(types: Types, root: TypeId, f: Field) {
    && IsCandidate(types, root, f) && !ParentTwice(types, root, f)
    && forall g :: IsCandidate(types, root, g) && g != f && g.name == f.name ==> Beats(f, g)
  }

  lemma SurvivorsAreDominant(types: Types, root: TypeId, f: Field)
    requires root in types
    ensures Survives(f, multiset(Candidates(types, root))) <==> IsDominant(types, root, f)
  {
    var m := multiset(Candidates(types, root));
    CandidatesExactly(types, root, f);
    forall g
      ensures g in m <==> IsCandidate(types, root, g)
    {
      CandidatesExactly(types, root, g);
    }
    assert forall g :: g != f ==> (g in m - multiset{f} <==> g in m);
    assert f in m - multiset{f} <==> IsCandidate(types, root, f) && ParentTwice(types, root, f);
  }

  /** An index sequence determines the candidate it belongs to. */
  lemma IndexDetermines(types: Types, root: TypeId, f: Field, g: Field)
    requires IsCandidate(types, root, f) && IsCandidate(types, root, g) && f.index == g.index
    ensures f == g
  {
  }

  /** typeFields: exactly the dominant fields, each name once, in index order. */
  method TypeFields(types: Types, root: TypeId) returns (fields: seq<Field>)
    requires root in types
    ensures forall f :: f in fields <==> IsDominant(types, root, f)
    ensures forall f :: f in fields ==> f.index != [] && var last := |f.index| - 1;
      var p := Follow(types, root, f.index[..last]);
      p.Some? && p.value in types && f.index[last] < |types[p.value]| &&
      var sf := types[p.value][f.index[last]];
      && sf.exported && !sf.skipped && !(sf.anonymous && sf.tagName == "" && sf.typ in types)
      && f.name == (if sf.tagName != "" then sf.tagName else sf.name) && (f.tagged <==> sf.tagName != "")
      && f.typ == sf.typ && f.omitEmpty == sf.omitEmpty && f.quoted == sf.quoted
    ensures DistinctNames(fields)
    ensures forall i, j :: 0 <= i < j < |fields| ==> IndexLess(fields[i], fields[j])
  {
    var found := Collect(types, root);
    var a := new Field[|found|](i requires 0 <= i < |found| => found[i]);
    assert a[..] == found;
    ByNameIsOrder();
    SortArray(a, ByNameLess);
    var w := Compact(a);
    ByIndexIsOrder();
    SortSorted(a[..w], IndexLess);
    fields := Sort(a[..w], IndexLess);
    SelectionSorted(types, root, a[..w], fields);
  }

  lemma SelectionSorted(types: Types, root: TypeId, out: seq<Field>, fields: seq<Field>)
    requires root in types && IsSelection(out, multiset(Candidates(types, root)))
    requires multiset(fields) == multiset(out) && SortedBy(fields, IndexLess)
    ensures forall f :: f in fields <==> IsDominant(types, root, f)
    ensures DistinctNames(fields)
    ensures forall i, j :: 0 <= i < j < |fields| ==> IndexLess(fields[i], fields[j])
  {
    forall f
      ensures f in fields <==> IsDominant(types, root, f)
    {
      assert f in fields <==> f in multiset(out);
      SurvivorsAreDominant(types, root, f);
    }
    DistinctPermuted(out, fields);
    forall i, j | 0 <= i < j < |fields|
      ensures IndexLess(fields[i], fields[j])
    {
      LexTotal(fields[i].index, fields[j].index);
      assert fields[i] in fields && fields[j] in fields;
      if fields[i].index == fields[j].index {
        IndexDetermines(types, root, fields[i], fields[j]);
      }
    }
  }

  lemma DistinctPermuted(out: seq<Field>, fields: seq<Field>)
    requires DistinctNames(out) && multiset(fields) == multiset(out)
    ensures DistinctNames(fields)
  {
    forall i, j | 0 <= i < j < |fields|
      ensures fields[i].name != fields[j].name
    {
      var f, g := fields[i], fields[j];
      assert fields == fields[..i] + [f] + fields[i + 1..j] + [g] + fields[j + 1..];
      assert multiset{f, g} <= multiset(out);
      TwoInDistinct(out, f, g);
    }
  }

  lemma {:induction false} TwoInDistinct(out: seq<Field>, f: Field, g: Field)
    requires DistinctNames(out) && multiset{f, g} <= multiset(out)
    ensures f.name != g.name
  {
    assert |multiset{f, g}| == 2;
    var n := |out| - 1;
    var before, last := out[..n], out[n];
    assert out == before + [last];
    assert forall x :: x in before ==> x.name != last.name;
    if f == last {
      assert g in multiset(before);
    } else if g == last {
      assert f in multiset(before);
    } else {
      TwoInDistinct(before, f, g);
    }
  }
}
