/** typeFields against Go's own rule for embedded fields, which looks at every path. */
module GoRule {
  import opened Outcomes
  import opened FieldOrder
  import opened Embedding
  import opened EmbeddingTheorems
  import opened Dominance

  /** A recorded field, by any path of embedded structs that leads to its struct. */
  ghost predicate IsPathField(types: Types, root: TypeId, f: Field) {
    f.index != [] && Follow(types, root, Front(f.index)).Some? &&
    var p, i := Follow(types, root, Front(f.index)).value, f.index[|f.index| - 1];
    p in types && i < |types[p]| && Describes(types, f, types[p][i])
  }

  /** The field wins over every other selector of its name. */
  ghost predicate ByGoRule(types: Types, root: TypeId, f: Field) {
    && IsPathField(types, root, f)
    && forall g :: IsPathField(types, root, g) && g.index != f.index && g.name == f.name ==> Beats(f, g)
  }

  /** No other path of the same length leads to the same struct. */
  ghost predicate OnlyPath(types: Types, root: TypeId, index: seq<nat>) {
    forall other :: |other| == |index| && Follow(types, root, other) == Follow(types, root, index) ==> other == index
  }

  // ----- Every struct that can be reached has a least path -----

  ghost function MostFields(types: Types): (m: nat)
    ensures forall p :: p in types ==> |types[p]| <= m
    decreases |types|
  {
    if types == map[] then 0
    else
      var p :| p in types;
      var rest := MostFields(types - {p});
      assert forall q :: q in types && q != p ==> q in types - {p} && types[q] == (types - {p})[q];
      if rest < |types[p]| then |types[p]| else rest
  }

  function Code(index: seq<nat>, m: nat): nat {
    if index == [] then 0 else Code(Front(index), m) * m + index[|index| - 1]
  }

  ghost predicate Digits(index: seq<nat>, m: nat) {
    forall k :: 0 <= k < |index| ==> index[k] < m
  }

  lemma {:induction false} FollowDigits(types: Types, root: TypeId, index: seq<nat>)
    requires Follow(types, root, index).Some?
    ensures Digits(index, MostFields(types))
  {
    if index != [] {
      FollowDigits(types, root, Front(index));
      SplitLast(index);
    }
  }

  lemma {:induction false} CodeGrows(a: seq<nat>, b: seq<nat>, m: nat)
    requires |a| == |b| && LexLess(a, b) && Digits(a, m) && Digits(b, m)
    ensures Code(a, m) < Code(b, m)
    decreases |a|
  {
    var i, j := a[|a| - 1], b[|b| - 1];
    SplitLast(a);
    SplitLast(b);
    LexExtend(Front(a), Front(b), i, j);
    if LexLess(Front(a), Front(b)) {
      CodeGrows(Front(a), Front(b), m);
      Carry(Code(Front(a), m), Code(Front(b), m), i, m);
    }
  }

  lemma {:induction false} Carry(x: nat, y: nat, i: nat, m: nat)
    requires x < y && i < m
    ensures x * m + i < y * m
    decreases y
  {
    assert y * m == (y - 1) * m + m;
    if x < y - 1 {
      Carry(x, y - 1, i, m);
    }
  }

  lemma {:induction false} LeastExists(types: Types, root: TypeId, index: seq<nat>) returns (least: seq<nat>)
    requires Follow(types, root, index).Some?
    ensures IsLeast(types, root, least) && Follow(types, root, least) == Follow(types, root, index)
    ensures !Before(index, least)
    decreases |index|, Code(index, MostFields(types))
  {
    BeforeTotal(index, index);
    if IsLeast(types, root, index) {
      return index;
    }
    var other :| Follow(types, root, other) == Follow(types, root, index) && Before(other, index);
    if |other| == |index| {
      FollowDigits(types, root, index);
      FollowDigits(types, root, other);
      CodeGrows(other, index, MostFields(types));
    }
    least := LeastExists(types, root, other);
    BeforeTotal(other, index);
    NotBeforeTransitive(least, other, index);
  }

  // ----- The rule -----

  /** The same field by another path to its struct. */
  lemma SameByOther(types: Types, root: TypeId, f: Field, other: seq<nat>) returns (g: Field)
    requires IsPathField(types, root, f) && Follow(types, root, other) == Follow(types, root, Front(f.index))
    ensures IsPathField(types, root, g) && g.name == f.name && g.tagged == f.tagged && |g.index| == |other| + 1
    ensures Front(g.index) == other && g.index[|other|] == f.index[|f.index| - 1]
  {
    var p, i := Follow(types, root, other).value, f.index[|f.index| - 1];
    g := FieldOf(types[p][i], other + [i]);
    assert Front(g.index) == other;
  }

  /** typeFields returns a field exactly when Go's rule selects it, except for fields of a struct
      that several equally short paths lead to: Go calls those ambiguous, and typeFields
      notices only if the paths part in the last step. */
  lemma GoRuleExactly(types: Types, root: TypeId, f: Field)
    requires root in types
    ensures ByGoRule(types, root, f) <==> IsDominant(types, root, f) && OnlyPath(types, root, Front(f.index))
  {
    if ByGoRule(types, root, f) {
      RuleGivesDominance(types, root, f);
    }
    if IsDominant(types, root, f) && OnlyPath(types, root, Front(f.index)) {
      DominanceGivesRule(types, root, f);
    }
  }

  lemma RuleGivesDominance(types: Types, root: TypeId, f: Field)
    requires ByGoRule(types, root, f)
    ensures IsDominant(types, root, f) && OnlyPath(types, root, Front(f.index))
  {
    hide FieldOf, LexLess, Recorded;
    var front := Front(f.index);
    forall other | Follow(types, root, other) == Follow(types, root, front)
      ensures other == front || |front| < |other|
    {
      if other != front {
        var g := SameByOther(types, root, f, other);
        assert g.index != f.index;
        assert Beats(f, g);
      }
    }
    BeforeTotal(front, front);
    assert IsLeast(types, root, front);
    forall g | IsCandidate(types, root, g) && g != f && g.name == f.name
      ensures Beats(f, g)
    {
      if g.index == f.index {
        IndexDetermines(types, root, f, g);
      }
      assert IsPathField(types, root, g);
    }
  }

  lemma DominanceGivesRule(types: Types, root: TypeId, f: Field)
    requires IsDominant(types, root, f) && OnlyPath(types, root, Front(f.index))
    ensures ByGoRule(types, root, f)
  {
    hide FieldOf, LexLess, Recorded;
    forall g | IsPathField(types, root, g) && g.index != f.index && g.name == f.name
      ensures Beats(f, g)
    {
      var path := Front(g.index);
      SplitLast(g.index);
      SplitLast(f.index);
      var least := LeastExists(types, root, path);
      var c := SameByOther(types, root, g, least);
      assert IsCandidate(types, root, c);
      assert |least| <= |path|;
      if c == f {
        assert path != Front(f.index);
      }
    }
  }

  // ----- The exception is real -----

  function Embedded(name: string, typ: TypeId): StructField {
    StructField(name, true, false, "", true, typ, false, false)
  }

  /** Root embeds A and B, which both embed C, which embeds D, which has the field x. */
  const DIAMOND: Types := map[
    0 := [Embedded("A", 1), Embedded("B", 2)],
    1 := [Embedded("C", 3)],
    2 := [Embedded("C", 3)],
    3 := [Embedded("D", 4)],
    4 := [StructField("x", true, false, "", false, 5, false, false)]]

  function LevelIn(t: TypeId): nat {
    if t == 0 then 0 else if t <= 2 then 1 else t - 1
  }

  lemma {:induction false} DiamondDepth(index: seq<nat>)
    requires Follow(DIAMOND, 0, index).Some?
    ensures Follow(DIAMOND, 0, index).value <= 4 && |index| == LevelIn(Follow(DIAMOND, 0, index).value)
  {
    if index != [] {
      DiamondDepth(Front(index));
    }
  }

  lemma {:induction false} ZerosAreFirst(a: seq<nat>, n: nat)
    requires |a| == n
    ensures !LexLess(a, seq(n, _ => 0))
  {
    if n > 0 {
      assert seq(n, _ => 0)[1..] == seq(n - 1, _ => 0);
      ZerosAreFirst(a[1..], n - 1);
    }
  }

  lemma DiamondPaths()
    ensures Follow(DIAMOND, 0, [0, 0, 0]) == Some(4) && Follow(DIAMOND, 0, [1, 0, 0]) == Some(4)
  {
    DiamondPath(0);
    DiamondPath(1);
  }

  lemma DiamondPath(i: nat)
    requires i <= 1
    ensures Follow(DIAMOND, 0, [i, 0, 0]) == Some(4)
  {
    var one, two := [i], [i, 0];
    DiamondSteps(i);
    hide Step;
    FollowExtend(DIAMOND, 0, [], i);
    FollowExtend(DIAMOND, 0, one, 0);
    FollowExtend(DIAMOND, 0, two, 0);
    assert [] + [i] == one && one + [0] == two && two + [0] == [i, 0, 0];
  }

  lemma DiamondSteps(i: nat)
    requires i <= 1
    ensures Step(DIAMOND, 0, i) == Some(i + 1) && Step(DIAMOND, i + 1, 0) == Some(3) && Step(DIAMOND, 3, 0) == Some(4)
  {
  }

  lemma DiamondLeast()
    ensures IsLeast(DIAMOND, 0, [0, 0, 0])
  {
    DiamondPaths();
    forall other | Follow(DIAMOND, 0, other) == Some(4)
      ensures !Before(other, [0, 0, 0])
    {
      DiamondDepth(other);
      ZerosAreFirst(other, 3);
      assert seq(3, _ => 0) == [0, 0, 0];
    }
  }

  /** Only C embeds D, and only the least path to C is followed. */
  lemma DiamondOnce(a: seq<nat>)
    requires IsQueued(DIAMOND, 0, 3, a) && Follow(DIAMOND, 0, a) == Some(4)
    ensures a == [0, 0, 0]
  {
    var front, i := Front(a), a[2];
    SplitLast(a);
    FollowExtend(DIAMOND, 0, front, i);
    DiamondDepth(front);
    DiamondLeast();
    FrontOfLeast(DIAMOND, 0, [0, 0, 0]);
    assert Front([0, 0, 0]) == [0, 0];
    FollowExtend(DIAMOND, 0, [0, 0], 0);
    DiamondDepth([0, 0]);
    BeforeTotal(front, [0, 0]);
  }

  /** typeFields keeps x, which two paths of the same length lead to. */
  lemma AmbiguousFieldKept()
    ensures var x := Field("x", false, [0, 0, 0, 0], 5, false, false);
      IsDominant(DIAMOND, 0, x) && !ByGoRule(DIAMOND, 0, x)
  {
    var x := Field("x", false, [0, 0, 0, 0], 5, false, false);
    assert Front(x.index) == [0, 0, 0];
    DiamondPaths();
    DiamondLeast();
    GoRuleExactly(DIAMOND, 0, x);
    assert IsCandidate(DIAMOND, 0, x);
    if ParentTwice(DIAMOND, 0, x) {
      var a, b :| a != b
        && IsQueued(DIAMOND, 0, 3, a) && Follow(DIAMOND, 0, a) == Some(4)
        && IsQueued(DIAMOND, 0, 3, b) && Follow(DIAMOND, 0, b) == Some(4);
      DiamondOnce(a);
      DiamondOnce(b);
    }
    forall g | IsCandidate(DIAMOND, 0, g) && g.name == "x"
      ensures g == x
    {
      DiamondField(g);
    }
    assert [1, 0, 0] != [0, 0, 0];
  }

  lemma DiamondField(g: Field)
    requires IsCandidate(DIAMOND, 0, g)
    ensures g == Field("x", false, [0, 0, 0, 0], 5, false, false)
  {
    var front := Front(g.index);
    DiamondDepth(front);
    SplitLast(g.index);
    assert Follow(DIAMOND, 0, front) == Some(4);
    DiamondLeast();
    DiamondPaths();
    BeforeTotal(front, [0, 0, 0]);
    assert front == [0, 0, 0];
  }
}
