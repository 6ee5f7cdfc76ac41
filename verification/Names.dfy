/** Names that may hold colons, escaped so that colons can separate them from other text. */
module Names {
  import opened Text

  predicate NeedsEscape(c: char) {
    c == '\\' || c == ':'
  }

  function Escape(name: string): string {
    if name == "" then ""
    else
      var c := name[|name| - 1];
      Escape(name[..|name| - 1]) + if NeedsEscape(c) then ['\\', c] else [c]
  }

  method EscapeName(name: string) returns (newRunes: string)
    ensures newRunes == Escape(name)
  {
    newRunes := "";
    for i := 0 to |name|
      invariant newRunes == Escape(name[..i])
    {
      assert name[..i + 1][..i] == name[..i];
      match name[i]
      case '\\' => newRunes := newRunes + ['\\', name[i]];
      case ':' => newRunes := newRunes + ['\\', name[i]];
      case _ => newRunes := newRunes + [name[i]];
    }
    assert name[..|name|] == name;
  }

  /** `escaped`: the character before was an escaping backslash. */
  function Unescape(s: string, escaped: bool): string {
    if s == "" then ""
    else if escaped || s[0] != '\\' then [s[0]] + Unescape(s[1..], false)
    else Unescape(s[1..], true)
  }

  method UnescapeName(name: string) returns (newRunes: string)
    ensures newRunes == Unescape(name, false)
  {
    newRunes := "";
    var isEscaped := false;
    for i := 0 to |name|
      invariant newRunes + Unescape(name[i..], isEscaped) == Unescape(name, false)
    {
      assert name[i..][1..] == name[i + 1..];
      ghost var rest := Unescape(name[i + 1..], false);
      assert newRunes + ([name[i]] + rest) == newRunes + [name[i]] + rest;
      if isEscaped {
        newRunes := newRunes + [name[i]];
        isEscaped := false;
      } else if name[i] == '\\' {
        isEscaped := true;
      } else {
        newRunes := newRunes + [name[i]];
      }
    }
    assert newRunes + "" == newRunes;
  }

  /** Puts text in front of the first piece. */
  function Onto(x: string, pieces: seq<string>): seq<string>
    requires pieces != []
  {
    [x + pieces[0]] + pieces[1..]
  }

  /** Cut at the colons that are not escaped. */
  function Cut(s: string, escaped: bool): (pieces: seq<string>)
    ensures pieces != []
  {
    if s == "" then [""]
    else if !escaped && s[0] == ':' then [""] + Cut(s[1..], false)
    else Onto([s[0]], Cut(s[1..], !escaped && s[0] == '\\'))
  }

  method SplitAtUnescapedColons(s: string) returns (segments: seq<string>)
    ensures segments == Cut(s, false)
  {
    segments := [];
    var segmentStart := 0;
    var isEscaped := false;
    CutEnds(s, 0, false);
    hide Cut, Onto;
    for i := 0 to |s|
      invariant segmentStart <= i
      invariant segments + Onto(s[segmentStart..i], Cut(s[i..], isEscaped)) == Cut(s, false)
    {
      CutStep(s, segmentStart, i, isEscaped, segments);
      if isEscaped {
        isEscaped := false;
      } else {
        match s[i]
        case '\\' =>
          isEscaped := true;
        case ':' =>
          segments := segments + [s[segmentStart..i]];
          segmentStart := i + 1;
        case _ =>
      }
    }
    CutEnds(s, segmentStart, isEscaped);
    if segmentStart <= |s| {
      segments := segments + [s[segmentStart..|s|]];
    }
  }

  /** Before the first and after the last character. */
  lemma CutEnds(s: string, start: nat, escaped: bool)
    requires start <= |s|
    ensures [] + Onto(s[0..0], Cut(s[0..], escaped)) == Cut(s, escaped)
    ensures Onto(s[start..|s|], Cut(s[|s|..], escaped)) == [s[start..|s|]]
  {
    var pieces := Cut(s, escaped);
    assert s[0..] == s && "" + pieces[0] == pieces[0];
    assert s[start..|s|] + "" == s[start..|s|];
  }

  /** One character further through the string. */
  lemma CutStep(s: string, start: nat, i: nat, escaped: bool, segments: seq<string>)
    requires start <= i < |s|
    ensures segments + Onto(s[start..i], Cut(s[i..], escaped)) ==
            if !escaped && s[i] == ':' then segments + [s[start..i]] + Onto(s[i + 1..i + 1], Cut(s[i + 1..], false))
            else segments + Onto(s[start..i + 1], Cut(s[i + 1..], !escaped && s[i] == '\\'))
  {
    assert s[i..][1..] == s[i + 1..];
    if !escaped && s[i] == ':' {
      var rest := Cut(s[i + 1..], false);
      assert s[start..i] + "" == s[start..i] && s[i + 1..i + 1] == "";
      assert Onto("", rest) == rest by {
        assert "" + rest[0] == rest[0];
      }
      assert Cut(s[i..], escaped) == [""] + rest;
    } else {
      var rest := Cut(s[i + 1..], !escaped && s[i] == '\\');
      assert s[start..i] + ([s[i]] + rest[0]) == s[start..i + 1] + rest[0];
    }
  }

  // ----- What the codec promises -----

  lemma {:induction false} UnescapeConcat(a: string, escaped: bool, b: string)
    ensures Unescape(a + b, escaped) == Unescape(a, escaped) + Unescape(b, EndsEscaped(a, escaped))
  {
    if a == "" {
      assert a + b == b;
    } else {
      UnescapeConcat(a[1..], !escaped && a[0] == '\\', b);
      assert (a + b)[1..] == a[1..] + b;
    }
  }

  function EndsEscaped(s: string, escaped: bool): bool {
    if s == "" then escaped else EndsEscaped(s[1..], !escaped && s[0] == '\\')
  }

  lemma {:induction false} EndsConcat(a: string, escaped: bool, b: string)
    ensures EndsEscaped(a + b, escaped) == EndsEscaped(b, EndsEscaped(a, escaped))
  {
    if a == "" {
      assert a + b == b;
    } else {
      EndsConcat(a[1..], !escaped && a[0] == '\\', b);
      assert (a + b)[1..] == a[1..] + b;
    }
  }

  /** No unescaped colon, and no backslash left over at the end. */
  predicate Unbroken(s: string) {
    Cut(s, false) == [s] && !EndsEscaped(s, false)
  }

  lemma Single(c: char, escaped: bool)
    requires escaped || !NeedsEscape(c)
    ensures Unescape([c], escaped) == [c] && !EndsEscaped([c], escaped) && Cut([c], escaped) == [[c]]
  {
    assert [c][0] == c && [c][1..] == "" && [c] + "" == [c];
    assert Onto([c], [""]) == [[c]];
  }

  lemma LastEscaped(c: char)
    ensures var e := if NeedsEscape(c) then ['\\', c] else [c];
      Unescape(e, false) == [c] && !EndsEscaped(e, false) && Cut(e, false) == [e]
  {
    if NeedsEscape(c) {
      var e := ['\\', c];
      assert e[0] == '\\' && e[1..] == [c];
      Single(c, true);
      assert ['\\'] + [c] == e;
      assert Onto(['\\'], [[c]]) == [e];
    } else {
      Single(c, false);
    }
  }

  /** Escaping is undone, and leaves nothing that would be cut. */
  /** Escaping puts a backslash before each colon and each backslash, and changes nothing else. */
  lemma {:induction false} EscapeEach(a: string, c: char, b: string)
    ensures Escape("") == ""
    ensures Escape(a + [c] + b) == Escape(a) + (if c == ':' || c == '\\' then ['\\', c] else [c]) + Escape(b)
    decreases |b|
  {
    var s := a + [c] + b;
    if b == "" {
      assert s[..|s| - 1] == a;
    } else {
      EscapeEach(a, c, b[..|b| - 1]);
      assert s[..|s| - 1] == a + [c] + b[..|b| - 1];
    }
  }

  /** A name without either is its own escape. */
  lemma {:induction false} PlainEscape(name: string)
    requires ':' !in name && '\\' !in name
    ensures Escape(name) == name
  {
    if name != "" {
      PlainEscape(name[..|name| - 1]);
      assert name == name[..|name| - 1] + [name[|name| - 1]];
    }
  }

  /** Unescaping drops the backslash before a character, whichever it is, and a backslash at the end. */
  lemma UnescapeEach(c: char, s: string)
    ensures Unescape(['\\', c] + s, false) == [c] + Unescape(s, false)
    ensures c != '\\' ==> Unescape([c] + s, false) == [c] + Unescape(s, false)
    ensures Unescape("\\", false) == "" && Unescape("", false) == ""
  {
    assert (['\\', c] + s)[1..] == [c] + s;
    assert ([c] + s)[1..] == s;
  }

  lemma {:induction false} EscapeRoundTrip(name: string)
    ensures Unescape(Escape(name), false) == name && Unbroken(Escape(name))
  {
    if name != "" {
      var n := |name| - 1;
      EscapeRoundTrip(name[..n]);
      LastEscaped(name[n]);
      var a, b := Escape(name[..n]), if NeedsEscape(name[n]) then ['\\', name[n]] else [name[n]];
      UnescapeConcat(a, false, b);
      EndsConcat(a, false, b);
      CutConcat(a, false, b);
      assert Onto(a, [b]) == [a + b];
    }
  }

  /** Text without an unescaped colon goes in front of the first piece of what follows. */
  lemma {:induction false} CutConcat(a: string, escaped: bool, b: string)
    requires Cut(a, escaped) == [a]
    ensures Cut(a + b, escaped) == Onto(a, Cut(b, EndsEscaped(a, escaped)))
  {
    if a == "" {
      assert a + b == b;
      var pieces := Cut(b, escaped);
      assert "" + pieces[0] == pieces[0];
    } else {
      CutHead(a, escaped);
      CutConcat(a[1..], !escaped && a[0] == '\\', b);
      assert (a + b)[0] == a[0] && (a + b)[1..] == a[1..] + b;
      var pieces := Cut(b, EndsEscaped(a, escaped));
      assert Cut(a + b, escaped) == Onto([a[0]], Onto(a[1..], pieces));
      hide Cut, EndsEscaped;
      OntoOnto([a[0]], a[1..], pieces);
      assert [a[0]] + a[1..] == a;
    }
  }

  lemma OntoOnto(x: string, y: string, pieces: seq<string>)
    requires pieces != []
    ensures Onto(x, Onto(y, pieces)) == Onto(x + y, pieces)
  {
    assert x + (y + pieces[0]) == x + y + pieces[0];
  }

  lemma CutHead(a: string, escaped: bool)
    requires a != "" && Cut(a, escaped) == [a]
    ensures (escaped || a[0] != ':') && Cut(a[1..], !escaped && a[0] == '\\') == [a[1..]]
  {
    var next := !escaped && a[0] == '\\';
    var rest := Cut(a[1..], next);
    assert a[0] in [a][0];
    assert Cut(a, escaped) == Onto([a[0]], rest);
    assert |rest| == 1;
    assert a[1..] == ([a[0]] + rest[0])[1..] == rest[0];
  }

  lemma {:induction false} JoinCut(s: string, escaped: bool)
    ensures Join(Cut(s, escaped), ":") == s
  {
    if s != "" {
      var next := !escaped && s[0] == '\\';
      JoinCut(s[1..], next);
      if !escaped && s[0] == ':' {
        var rest := Cut(s[1..], false);
        assert ([""] + rest)[1..] == rest;
      } else {
        JoinPrepend([s[0]], Cut(s[1..], next), ":");
      }
    }
  }

  /** An unescaped colon after unbroken text cuts. */
  lemma CutAfter(a: string, b: string)
    requires Unbroken(a)
    ensures Cut(a + ":" + b, false) == [a] + Cut(b, false)
  {
    CutConcat(a, false, ":" + b);
    assert a + ":" + b == a + (":" + b);
    assert (":" + b)[1..] == b;
    assert a + "" == a;
  }

  function EscapeAll(names: seq<string>): (r: seq<string>)
    ensures |r| == |names|
  {
    if names == [] then [] else [Escape(names[0])] + EscapeAll(names[1..])
  }

  /** Whatever the names, joining them escaped and splitting again gives them back. */
  lemma {:induction false} JoinedNamesSplit(names: seq<string>)
    requires names != []
    ensures Cut(Join(EscapeAll(names), ":"), false) == EscapeAll(names)
  {
    EscapeRoundTrip(names[0]);
    var all := EscapeAll(names);
    if |names| == 1 {
      assert names[1..] == [];
      assert all == [Escape(names[0])];
    } else {
      JoinedNamesSplit(names[1..]);
      assert all[1..] == EscapeAll(names[1..]);
      CutAfter(all[0], Join(all[1..], ":"));
    }
  }

  /** Every piece but the last is unbroken. */
  lemma {:induction false} PiecesUnbroken(s: string, escaped: bool)
    ensures var pieces := Cut(s, escaped);
      && (forall i :: 1 <= i < |pieces| - 1 ==> Unbroken(pieces[i]))
      && (|pieces| > 1 ==> Cut(pieces[0], escaped) == [pieces[0]] && !EndsEscaped(pieces[0], escaped))
  {
    if s != "" {
      var next := !escaped && s[0] == '\\';
      PiecesUnbroken(s[1..], next);
      var rest := Cut(s[1..], next);
      if !escaped && s[0] == ':' {
        assert Cut("", false) == [""];
        var pieces := Cut(s, escaped);
        assert forall i :: 1 <= i < |pieces| - 1 ==> pieces[i] == rest[i - 1];
      } else if |rest| > 1 {
        var head := [s[0]] + rest[0];
        assert head[1..] == rest[0];
      }
    }
  }
}
