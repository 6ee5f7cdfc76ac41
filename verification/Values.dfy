/** Parsed YAML and paths into it. Nothing in the evaluator writes into a value once it is
    shared, so values are immutable. */
module Values {
  import opened Outcomes
  import Numerals

  /** `Num` carries the number's %v rendering; `Other` stands for booleans and the like. */
  datatype Value =
    | Null
    | Str(s: string)
    | Num(rendering: string)
    | List(items: seq<Value>)
    | Map(entries: map<string, Value>)
    | Other(id: nat)

  type Dict = map<string, Value>

  /** jsonutil.AtPathIn. A negative list index passes the length test and then panics. */
  function AtPath(v: Value, path: seq<string>): Outcome<Value>
    decreases |path|
  {
    if path == [] then Ok(v)
    else
      match v
      case List(items) =>
        (match Numerals.ParseInt(path[0], 10, 64)
         case None => Fail
         case Some(i) =>
           if |items| <= i then Fail else if i < 0 then Crash else AtPath(items[i], path[1..]))
      case Map(entries) => if path[0] in entries then AtPath(entries[path[0]], path[1..]) else Fail
      case _ => Fail
  }

  /** Following a long path is following its two halves in turn. */
  lemma {:induction false} AtPathConcat(v: Value, p: seq<string>, q: seq<string>)
    ensures AtPath(v, p + q) == match AtPath(v, p) { case Ok(w) => AtPath(w, q) case o => o }
    decreases |p|
  {
    if p == [] {
      assert p + q == q;
    } else {
      var key, pq := p[0], p + q;
      assert pq[0] == key && pq[1..] == p[1..] + q;
      match v
      case List(items) =>
        var i := Numerals.ParseInt(key, 10, 64);
        if i.Some? && 0 <= i.value < |items| {
          AtPathConcat(items[i.value], p[1..], q);
        }
      case Map(entries) =>
        if key in entries {
          AtPathConcat(entries[key], p[1..], q);
        }
      case _ =>
    }
  }

  /** `.n` picks item n of a list, and fails past its end. */
  lemma AtPathIndex(items: seq<Value>, n: nat)
    requires n < Numerals.Pow2(63)
    ensures AtPath(List(items), [Numerals.Print(n, 10)]) == if n < |items| then Ok(items[n]) else Fail
  {
    Numerals.ParsePrint(n, 10, 64);
  }

  /** The segment does not read as a negative number. */
  predicate IndexOk(seg: string) {
    var i := Numerals.ParseInt(seg, 10, 64);
    i.Some? ==> i.value >= 0
  }

  /** Following a path panics exactly when, part of the way, a list is reached and the next segment
      reads as a negative number. */
  lemma {:induction false} AtPathPanics(v: Value, path: seq<string>)
    ensures AtPath(v, path).Crash? <==>
      exists n :: 0 <= n < |path| && !IndexOk(path[n]) && AtPath(v, path[..n]).Ok? && AtPath(v, path[..n]).value.List?
    decreases |path|
  {
    if path != [] {
      var next := Next(v, path[0]);
      forall n | 0 <= n < |path|
        ensures n == 0 ==> path[..n] == []
        ensures n > 0 ==> AtPath(v, path[..n]) == if next.Ok? then AtPath(next.value, path[1..][..n - 1]) else next
      {
        if n > 0 {
          NextStep(v, path[..n]);
          assert path[..n][1..] == path[1..][..n - 1];
        }
      }
      NextStep(v, path);
      if next.Ok? {
        AtPathPanics(next.value, path[1..]);
        PanicsLater(v, path, next.value);
      }
    }
  }

  /** One step of the way. */
  function Next(v: Value, seg: string): Outcome<Value> {
    AtPath(v, [seg])
  }

  lemma NextStep(v: Value, path: seq<string>)
    requires path != []
    ensures AtPath(v, path) == match Next(v, path[0]) { case Ok(w) => AtPath(w, path[1..]) case o => o }
    ensures Next(v, path[0]).Crash? <==> v.List? && !IndexOk(path[0])
  {
    assert [path[0]] + path[1..] == path;
    AtPathConcat(v, [path[0]], path[1..]);
  }

  lemma PanicsLater(v: Value, path: seq<string>, w: Value)
    requires path != [] && Next(v, path[0]) == Ok(w)
    requires forall n :: 0 < n < |path| ==> AtPath(v, path[..n]) == AtPath(w, path[1..][..n - 1])
    ensures (exists n :: 0 <= n < |path| && !IndexOk(path[n]) && AtPath(v, path[..n]).Ok? && AtPath(v, path[..n]).value.List?) <==>
            (exists n :: 0 <= n < |path[1..]| && !IndexOk(path[1..][n]) && AtPath(w, path[1..][..n]).Ok? && AtPath(w, path[1..][..n]).value.List?)
  {
    var rest := path[1..];
    assert AtPath(v, path[..0]) == Ok(v);
    hide AtPath, IndexOk;
    assert !(v.List? && !IndexOk(path[0])) by {
      NextStep(v, path);
    }
    if n :| 0 <= n < |path| && !IndexOk(path[n]) && AtPath(v, path[..n]).Ok? && AtPath(v, path[..n]).value.List? {
      assert n > 0 && rest[n - 1] == path[n];
      assert AtPath(w, rest[..n - 1]).Ok? && AtPath(w, rest[..n - 1]).value.List?;
    }
    if n :| 0 <= n < |rest| && !IndexOk(rest[n]) && AtPath(w, rest[..n]).Ok? && AtPath(w, rest[..n]).value.List? {
      assert path[n + 1] == rest[n];
      assert AtPath(v, path[..n + 1]).Ok? && AtPath(v, path[..n + 1]).value.List?;
    }
  }

  /** Every path with such a segment panics on some value. */
  lemma {:induction false} NegativeIndexPanics(path: seq<string>, n: nat) returns (v: Value)
    requires n < |path| && !IndexOk(path[n])
    ensures AtPath(v, path).Crash?
    decreases n
  {
    if n == 0 {
      v := List([]);
    } else if !IndexOk(path[0]) {
      v := List([]);
    } else {
      var w := NegativeIndexPanics(path[1..], n - 1);
      v := Map(map[path[0] := w]);
    }
  }

  /** For one, the path "-1" into any list. */
  lemma MinusOnePanics(items: seq<Value>)
    ensures AtPath(List(items), ["-1"]).Crash?
  {
    Numerals.Pow2Positive(63);
    Numerals.ParsePrint(-1, 10, 64);
    assert Numerals.PrintInt(-1, 10) == "-1";
  }
}
