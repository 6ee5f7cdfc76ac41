/** The parts of Go's `strings` package that the repository leans on. */
module Text {

  /** strings.Contains. */
  predicate Contains(s: string, sep: string) {
    sep <= s || (s != "" && Contains(s[1..], sep))
  }

  /** It stands somewhere in the string. */
  lemma {:induction false} ContainsSomewhere(s: string, sep: string)
    ensures Contains(s, sep) <==> exists before, after :: s == before + sep + after
  {
    if sep <= s {
      assert s == "" + sep + s[|sep|..];
    } else if s != "" {
      ContainsSomewhere(s[1..], sep);
      if before, after :| s == before + sep + after {
        assert before != "" by {
          assert "" + sep + after == sep + after;
        }
        assert s[1..] == before[1..] + sep + after;
      }
      if before, after :| s[1..] == before + sep + after {
        assert s == ([s[0]] + before) + sep + after;
      }
    }
  }

  /** strings.Split: cut at the leftmost, non-overlapping occurrences of `sep`. */
  function Split(s: string, sep: string): (pieces: seq<string>)
    requires sep != ""
    ensures |pieces| >= 1
    ensures |pieces| > 1 <==> Contains(s, sep)
    decreases |s|
  {
    if sep <= s then [""] + Split(s[|sep|..], sep)
    else if s == "" then [""]
    else
      var rest := Split(s[1..], sep);
      [[s[0]] + rest[0]] + rest[1..]
  }

  /** strings.Join. */
  function Join(pieces: seq<string>, sep: string): string {
    if pieces == [] then ""
    else if |pieces| == 1 then pieces[0]
    else pieces[0] + sep + Join(pieces[1..], sep)
  }

  /** Joining commutes with prepending text to the first piece. */
  lemma JoinPrepend(x: string, pieces: seq<string>, sep: string)
    requires pieces != []
    ensures Join([x + pieces[0]] + pieces[1..], sep) == x + Join(pieces, sep)
  {
    var longer := [x + pieces[0]] + pieces[1..];
    assert longer[1..] == pieces[1..];
    if |pieces| > 1 {
      var tail := Join(pieces[1..], sep);
      assert (x + pieces[0]) + sep + tail == x + (pieces[0] + sep + tail);
    }
  }

  lemma {:induction false} JoinSplit(s: string, sep: string)
    requires sep != ""
    ensures Join(Split(s, sep), sep) == s
    decreases |s|
  {
    if sep <= s {
      var rest := Split(s[|sep|..], sep);
      JoinSplit(s[|sep|..], sep);
      assert ([""] + rest)[1..] == rest;
    } else if s != "" {
      JoinSplit(s[1..], sep);
      JoinPrepend([s[0]], Split(s[1..], sep), sep);
    }
  }

  /** The first piece is a prefix of the string. */
  lemma {:induction false} FirstPieceIsPrefix(s: string, sep: string)
    requires sep != ""
    ensures Split(s, sep)[0] <= s
  {
    JoinSplit(s, sep);
  }

  /** No piece contains the separator. */
  lemma {:induction false} PiecesLackSeparator(s: string, sep: string)
    requires sep != ""
    ensures forall x :: x in Split(s, sep) ==> !Contains(x, sep)
    decreases |s|
  {
    if sep <= s {
      PiecesLackSeparator(s[|sep|..], sep);
    } else if s == "" {
    } else {
      PiecesLackSeparator(s[1..], sep);
      FirstPieceIsPrefix(s, sep);
      var rest := Split(s[1..], sep);
      var head := [s[0]] + rest[0];
      assert head == Split(s, sep)[0];
      assert !(sep <= head);
      assert head[1..] == rest[0];
      assert forall x :: x in Split(s, sep) ==> x == head || x in rest[1..];
    }
  }

  lemma {:induction false} SplitWithout(s: string, sep: string)
    requires sep != "" && !Contains(s, sep)
    ensures Split(s, sep) == [s]
  {
    if s != "" {
      SplitWithout(s[1..], sep);
      assert [s[0]] + s[1..] == s;
    }
  }

  /** `sep` occurs nowhere in `a + sep + b` before the end of `a`. */
  ghost predicate FirstAt(a: string, sep: string, b: string) {
    forall i {:trigger a[i..]} :: 0 <= i < |a| ==> !(sep <= a[i..] + sep + b)
  }

  lemma {:induction false} SplitAtFirst(a: string, sep: string, b: string)
    requires sep != "" && FirstAt(a, sep, b)
    ensures Split(a + sep + b, sep) == [a] + Split(b, sep)
  {
    var s := a + sep + b;
    if a == "" {
      assert s[|sep|..] == b;
    } else {
      assert a[0..] == a;
      assert s[1..] == a[1..] + sep + b;
      forall i {:trigger a[1..][i..]} | 0 <= i < |a[1..]|
        ensures !(sep <= a[1..][i..] + sep + b)
      {
        assert a[1..][i..] == a[i + 1..];
      }
      SplitAtFirst(a[1..], sep, b);
      assert a == [s[0]] + a[1..];
    }
  }

  /** A one-character separator occurs exactly where its character does. */
  lemma {:induction false} ContainsChar(s: string, c: char)
    ensures Contains(s, [c]) <==> c in s
  {
    if s != "" {
      ContainsChar(s[1..], c);
      assert s == [s[0]] + s[1..];
    }
  }

  lemma CharFirstAt(a: string, c: char, b: string)
    requires c !in a
    ensures FirstAt(a, [c], b)
  {
    forall i {:trigger a[i..]} | 0 <= i < |a|
      ensures !([c] <= a[i..] + [c] + b)
    {
      assert (a[i..] + [c] + b)[0] == a[i];
    }
  }

  /** Splitting undoes joining when no piece holds the separator. */
  lemma {:induction false} SplitJoin(pieces: seq<string>, c: char)
    requires pieces != []
    requires forall x :: x in pieces ==> c !in x
    ensures Split(Join(pieces, [c]), [c]) == pieces
  {
    if |pieces| == 1 {
      ContainsChar(pieces[0], c);
      SplitWithout(pieces[0], [c]);
    } else {
      CharFirstAt(pieces[0], c, Join(pieces[1..], [c]));
      SplitAtFirst(pieces[0], [c], Join(pieces[1..], [c]));
      SplitJoin(pieces[1..], c);
    }
  }

  lemma {:induction false} JoinChars(pieces: seq<string>, sep: string, c: char)
    requires c in Join(pieces, sep)
    ensures c in sep || exists i :: 0 <= i < |pieces| && c in pieces[i]
  {
    if |pieces| > 1 && c !in pieces[0] && c !in sep {
      JoinChars(pieces[1..], sep, c);
      var i :| 0 <= i < |pieces[1..]| && c in pieces[1..][i];
      assert c in pieces[i + 1];
    }
  }
}
