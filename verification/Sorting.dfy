/** sort.Sort and sort.Strings: library code, modelled as an insertion sort. */
module Sorting {

  type Less<!T> = (T, T) -> bool

  /** What sorting promises for a given Less. */
  ghost predicate SortedBy<T>(s: seq<T>, less: Less<T>) {
    forall i, j :: 0 <= i < j < |s| ==> !less(s[j], s[i])
  }

  /** Less is consistent, as sort.Sort asks. */
  ghost predicate IsOrder<T(!new)>(less: Less<T>) {
    && (forall x, y, z :: !less(y, x) && !less(z, y) ==> !less(z, x))
    && (forall x, y :: less(x, y) ==> !less(y, x))
  }

  function Insert<T>(x: T, s: seq<T>, less: Less<T>): (r: seq<T>)
    ensures multiset(r) == multiset(s) + multiset{x}
    ensures |r| == |s| + 1
  {
    if s == [] || less(x, s[0]) then
      assert [x] + s == [x] + s[..];
      [x] + s
    else
      assert s == [s[0]] + s[1..];
      [s[0]] + Insert(x, s[1..], less)
  }

  function Sort<T>(s: seq<T>, less: Less<T>): (r: seq<T>)
    ensures multiset(r) == multiset(s) && |r| == |s|
  {
    if s == [] then []
    else
      var n := |s| - 1;
      assert s == s[..n] + [s[n]];
      Insert(s[n], Sort(s[..n], less), less)
  }

  lemma {:induction false} InsertSorted<T(!new)>(x: T, s: seq<T>, less: Less<T>)
    requires IsOrder(less) && SortedBy(s, less)
    ensures SortedBy(Insert(x, s, less), less)
  {
    var r := Insert(x, s, less);
    if s == [] {
    } else if less(x, s[0]) {
      forall j | 1 <= j < |r|
        ensures !less(r[j], x)
      {
        assert r[j] == s[j - 1];
        assert !less(s[j - 1], s[0]) by {
          assert j == 1 || !less(s[j - 1], s[0]);
        }
      }
    } else {
      var rest := Insert(x, s[1..], less);
      InsertSorted(x, s[1..], less);
      forall j | 0 <= j < |rest|
        ensures !less(rest[j], s[0])
      {
        assert rest[j] in multiset(rest);
        assert rest[j] == x || rest[j] in s[1..];
      }
    }
  }

  lemma {:induction false} SortSorted<T(!new)>(s: seq<T>, less: Less<T>)
    requires IsOrder(less)
    ensures SortedBy(Sort(s, less), less)
  {
    if s != [] {
      var n := |s| - 1;
      SortSorted(s[..n], less);
      InsertSorted(s[n], Sort(s[..n], less), less);
    }
  }
}
