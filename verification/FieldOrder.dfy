/** Struct fields as yaml/fields.go records them, and the two orders it sorts them by. */
module FieldOrder {
  import opened Sorting

  /** Type identifiers stand for reflect.Type values. */
  type TypeId = nat

  datatype Field = Field(
    name: string, tagged: bool, index: seq<nat>, typ: TypeId, omitEmpty: bool, quoted: bool)

  // ----- Lexicographic order -----

  /** The loop of byIndex.Less, which is also Go's order on strings. */
  predicate LexLess(a: seq<int>, b: seq<int>) {
    b != [] && (a == [] || a[0] < b[0] || (a[0] == b[0] && LexLess(a[1..], b[1..])))
  }

  /** At the first difference the smaller number comes first, and a part before the whole. */
  lemma {:induction false} FirstDifference(a: seq<int>, b: seq<int>, n: nat)
    requires n <= |a| && n <= |b| && a[..n] == b[..n]
    ensures n < |a| && n < |b| && a[n] != b[n] ==> (LexLess(a, b) <==> a[n] < b[n])
    ensures n == |a| ==> (LexLess(a, b) <==> |a| < |b|)
  {
    if n > 0 {
      assert a[0] == a[..n][0] == b[..n][0] == b[0];
      assert a[1..][..n - 1] == a[..n][1..] == b[..n][1..] == b[1..][..n - 1];
      FirstDifference(a[1..], b[1..], n - 1);
    }
  }

  lemma {:induction false} LexTotal(a: seq<int>, b: seq<int>)
    ensures !(LexLess(a, b) && LexLess(b, a))
    ensures a == b || LexLess(a, b) || LexLess(b, a)
    ensures a == b ==> !LexLess(a, b)
  {
    if a != [] && b != [] {
      LexTotal(a[1..], b[1..]);
      if a[0] == b[0] && a[1..] == b[1..] {
        assert a == [a[0]] + a[1..] && b == [b[0]] + b[1..];
      }
    }
  }

  lemma {:induction false} LexTransitive(a: seq<int>, b: seq<int>, c: seq<int>)
    requires LexLess(a, b) && LexLess(b, c)
    ensures LexLess(a, c)
  {
    if a != [] && a[0] == b[0] == c[0] {
      LexTransitive(a[1..], b[1..], c[1..]);
    }
  }

  function Codes(s: string): (codes: seq<int>)
    ensures |codes| == |s|
    ensures forall i :: 0 <= i < |s| ==> codes[i] == s[i] as int
  {
    seq(|s|, i requires 0 <= i < |s| => s[i] as int)
  }

  predicate NameLess(a: string, b: string) {
    LexLess(Codes(a), Codes(b))
  }

  lemma SameCodes(a: string, b: string)
    ensures Codes(a) == Codes(b) <==> a == b
  {
    if Codes(a) == Codes(b) {
      assert forall i :: 0 <= i < |a| ==> a[i] as int == Codes(a)[i] == Codes(b)[i] == b[i] as int;
      assert a == b;
    }
  }

  /** Names are ordered by the first character in which they differ. */
  lemma NameFirstDifference(a: string, b: string, n: nat)
    requires n <= |a| && n <= |b| && a[..n] == b[..n]
    ensures n < |a| && n < |b| && a[n] != b[n] ==> (NameLess(a, b) <==> a[n] < b[n])
    ensures n == |a| ==> (NameLess(a, b) <==> |a| < |b|)
  {
    assert Codes(a)[..n] == Codes(b)[..n] by {
      assert forall i :: 0 <= i < n ==> a[i] == a[..n][i] == b[..n][i] == b[i];
    }
    FirstDifference(Codes(a), Codes(b), n);
  }

  // ----- byName and byIndex -----

  predicate IndexLess(x: Field, y: Field) {
    LexLess(x.index, y.index)
  }

  predicate ByNameLess(x: Field, y: Field) {
    if x.name != y.name then NameLess(x.name, y.name)
    else if |x.index| != |y.index| then |x.index| < |y.index|
    else if x.tagged != y.tagged then x.tagged
    else IndexLess(x, y)
  }

  /** Fields are sorted by name; of one name, those nearer the root first; as near, those with a tag;
      and else by index, where the first difference decides. */
  lemma OrderOfFields(x: Field, y: Field, n: nat)
    ensures x.name != y.name ==> (ByNameLess(x, y) <==> NameLess(x.name, y.name))
    ensures x.name == y.name && |x.index| != |y.index| ==> (ByNameLess(x, y) <==> |x.index| < |y.index|)
    ensures x.name == y.name && |x.index| == |y.index| && x.tagged != y.tagged ==> (ByNameLess(x, y) <==> x.tagged)
    ensures x.name == y.name && |x.index| == |y.index| && x.tagged == y.tagged ==> (ByNameLess(x, y) <==> IndexLess(x, y))
    ensures n < |x.index| && n < |y.index| && x.index[..n] == y.index[..n] && x.index[n] != y.index[n] ==>
      (IndexLess(x, y) <==> x.index[n] < y.index[n])
    ensures x.index <= y.index ==> (IndexLess(x, y) <==> |x.index| < |y.index|)
  {
    if n < |x.index| && n < |y.index| && x.index[..n] == y.index[..n] {
      FirstDifference(x.index, y.index, n);
    }
    if x.index <= y.index {
      FirstDifference(x.index, y.index, |x.index|);
    }
  }

  lemma ByNameTransitive(x: Field, y: Field, z: Field)
    requires !ByNameLess(y, x) && !ByNameLess(z, y)
    ensures !ByNameLess(z, x)
  {
    SameCodes(x.name, y.name);
    SameCodes(y.name, z.name);
    SameCodes(x.name, z.name);
    NotLessTransitive(Codes(x.name), Codes(y.name), Codes(z.name));
    NotLessTransitive(x.index, y.index, z.index);
    LexTotal(Codes(x.name), Codes(y.name));
    LexTotal(Codes(y.name), Codes(z.name));
  }

  lemma NotLessTransitive(a: seq<int>, b: seq<int>, c: seq<int>)
    ensures !LexLess(b, a) && !LexLess(c, b) ==> !LexLess(c, a)
  {
    LexTotal(a, b);
    LexTotal(b, c);
    LexTotal(a, c);
    if LexLess(a, b) && LexLess(b, c) {
      LexTransitive(a, b, c);
    }
  }

  lemma ByNameIsOrder()
    ensures IsOrder(ByNameLess)
  {
    forall x, y, z | !ByNameLess(y, x) && !ByNameLess(z, y)
      ensures !ByNameLess(z, x)
    {
      ByNameTransitive(x, y, z);
    }
    forall x, y | ByNameLess(x, y)
      ensures !ByNameLess(y, x)
    {
      LexTotal(Codes(x.name), Codes(y.name));
      LexTotal(x.index, y.index);
    }
  }

  lemma ByIndexIsOrder()
    ensures IsOrder(IndexLess)
  {
    forall x, y, z | !IndexLess(y, x) && !IndexLess(z, y)
      ensures !IndexLess(z, x)
    {
      NotLessTransitive(x.index, y.index, z.index);
    }
    forall x, y | IndexLess(x, y)
      ensures !IndexLess(y, x)
    {
      LexTotal(x.index, y.index);
    }
  }
}
