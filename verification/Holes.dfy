/** The three regular expressions of template/template.go as functions on strings. */
module Holes {

  predicate IsBrace(c: char) {
    c == '{' || c == '}'
  }

  predicate BraceFree(s: string) {
    forall m :: 0 <= m < |s| ==> !IsBrace(s[m])
  }

  function HoleText(ident: string): string {
    "${" + ident + "}"
  }

  /** `s[i..j]` is a match of fillRegexp. */
  predicate HoleAt(s: string, i: nat, j: nat) {
    && i + 3 <= j <= |s|
    && s[i] == '$' && s[i + 1] == '{' && s[j - 1] == '}'
    && forall m :: i + 2 <= m < j - 1 ==> !IsBrace(s[m])
  }

  /** expandRegexp: the whole of `s` is one hole. */
  predicate IsHole(s: string) {
    HoleAt(s, 0, |s|)
  }

  function HoleIdent(s: string): (ident: string)
    requires IsHole(s)
    ensures s == HoleText(ident) && BraceFree(ident)
  {
    s[2..|s| - 1]
  }

  /** spreadRegexp: a hole whose identifier is followed by three dots. */
  predicate IsSpread(s: string) {
    IsHole(s) && |s| >= 6 && s[|s| - 4..|s| - 1] == "..."
  }

  function SpreadIdent(s: string): (ident: string)
    requires IsSpread(s)
    ensures s == HoleText(ident + "...") && BraceFree(ident)
  {
    s[2..|s| - 4]
  }

  /** A string as fillRegexp.ReplaceAllFunc sees it: untouched text around holes. */
  datatype Template = Tail(text: string) | Cut(text: string, ident: string, rest: Template)

  function Unparse(t: Template): string {
    match t
    case Tail(text) => text
    case Cut(text, ident, rest) => text + HoleText(ident) + Unparse(rest)
  }

  /** The first brace at or after `from`. */
  function BraceIndex(s: string, from: nat): (j: nat)
    requires from <= |s|
    ensures from <= j <= |s|
    ensures forall m :: from <= m < j ==> !IsBrace(s[m])
    ensures j < |s| ==> IsBrace(s[j])
    decreases |s| - from
  {
    if from == |s| || IsBrace(s[from]) then from else BraceIndex(s, from + 1)
  }

  /** The length of a hole at the very start of `s`, or 0. */
  function HoleLength(s: string): (n: nat)
    ensures n > 0 ==> HoleAt(s, 0, n)
    ensures forall k: nat :: HoleAt(s, 0, k) ==> k == n
  {
    if |s| < 3 || s[0] != '$' || s[1] != '{' then 0
    else
      var j := BraceIndex(s, 2);
      if j < |s| && s[j] == '}' then j + 1 else 0
  }

  function Prepend(c: char, t: Template): Template {
    match t
    case Tail(text) => Tail([c] + text)
    case Cut(text, ident, rest) => Cut([c] + text, ident, rest)
  }

  /** Scan from the left, taking a hole wherever one starts. */
  function Parse(s: string): Template
    decreases |s|
  {
    if s == "" then Tail("")
    else
      var n := HoleLength(s);
      if n > 0 then Cut("", HoleIdent(s[..n]), Parse(s[n..])) else Prepend(s[0], Parse(s[1..]))
  }

  ghost predicate HoleFree(s: string) {
    forall i: nat, j: nat :: !HoleAt(s, i, j)
  }

  /** Untouched text holds no hole and identifiers hold no brace. */
  ghost predicate Normal(t: Template) {
    match t
    case Tail(text) => HoleFree(text)
    case Cut(text, ident, rest) => HoleFree(text) && BraceFree(ident) && Normal(rest)
  }

  lemma UnparsePrepend(c: char, t: Template)
    ensures Unparse(Prepend(c, t)) == [c] + Unparse(t)
  {
    if t.Cut? {
      assert [c] + t.text + HoleText(t.ident) + Unparse(t.rest) == [c] + (t.text + HoleText(t.ident) + Unparse(t.rest));
    }
  }

  lemma TextIsPrefix(t: Template)
    ensures t.text <= Unparse(t)
  {
    if t.Cut? {
      assert Unparse(t) == t.text + (HoleText(t.ident) + Unparse(t.rest));
    }
  }

  lemma ShiftHole(c: char, text: string, i: nat, j: nat)
    requires 1 <= i && 1 <= j
    ensures HoleAt([c] + text, i, j) <==> HoleAt(text, i - 1, j - 1)
  {
    var longer := [c] + text;
    assert forall m :: 0 <= m < |text| ==> text[m] == longer[m + 1];
    assert forall m :: 1 <= m < |longer| ==> longer[m] == text[m - 1];
  }

  /** Text stays hole-free under a character that starts no hole of the whole string. */
  lemma PrependHoleFree(c: char, text: string, s: string)
    requires HoleFree(text) && HoleLength(s) == 0 && [c] + text <= s
    ensures HoleFree([c] + text)
  {
    forall i: nat, j: nat
      ensures !HoleAt([c] + text, i, j)
    {
      if i == 0 || j == 0 {
        assert HoleAt([c] + text, i, j) ==> HoleAt(s, i, j);
      } else {
        ShiftHole(c, text, i, j);
      }
    }
  }

  lemma SuffixHoleFree(text: string)
    requires HoleFree(text) && text != ""
    ensures HoleFree(text[1..])
  {
    assert text == [text[0]] + text[1..];
    forall i: nat, j: nat
      ensures !HoleAt(text[1..], i, j)
    {
      ShiftHole(text[0], text[1..], i + 1, j + 1);
    }
  }

  lemma HoleTextAtStart(ident: string, rest: string)
    requires BraceFree(ident)
    ensures IsHole(HoleText(ident)) && HoleIdent(HoleText(ident)) == ident
    ensures HoleLength(HoleText(ident) + rest) == |HoleText(ident)|
  {
    var s := HoleText(ident) + rest;
    assert forall m :: 0 <= m < |ident| ==> s[m + 2] == HoleText(ident)[m + 2] == ident[m];
    assert HoleAt(s, 0, |ident| + 3);
  }

  /** A hole cannot start in text and end beyond it: it would have to hold the next hole's brace. */
  lemma NoHoleLeavesText(t: Template)
    requires Normal(t) && t.text != ""
    ensures HoleLength(Unparse(t)) == 0
  {
    var s := Unparse(t);
    TextIsPrefix(t);
    if t.Cut? {
      assert s == t.text + (HoleText(t.ident) + Unparse(t.rest));
      assert s[|t.text|] == '$' && s[|t.text| + 1] == '{';
    }
    var n := HoleLength(s);
    assert forall k: nat :: k <= |t.text| ==> (HoleAt(s, 0, k) <==> HoleAt(t.text, 0, k));
  }

  /** Parse only cuts: nothing is lost and no hole is missed. */
  lemma {:induction false} ParseCuts(s: string)
    ensures Unparse(Parse(s)) == s && Normal(Parse(s))
    decreases |s|
  {
    if s == "" {
    } else {
      var n := HoleLength(s);
      if n > 0 {
        ParseCuts(s[n..]);
        assert s == s[..n] + s[n..];
        assert "" + HoleText(HoleIdent(s[..n])) == s[..n];
      } else {
        var t := Parse(s[1..]);
        ParseCuts(s[1..]);
        UnparsePrepend(s[0], t);
        assert s == [s[0]] + s[1..];
        TextIsPrefix(t);
        PrependHoleFree(s[0], t.text, s);
      }
    }
  }

  /** Holes never overlap, so only one way of cutting a string misses no hole: Parse finds it. */
  lemma {:induction false} ParseUnique(t: Template)
    requires Normal(t)
    ensures Parse(Unparse(t)) == t
    decreases |Unparse(t)|
  {
    var s := Unparse(t);
    if t.text == "" {
      if t.Cut? {
        var hole := HoleText(t.ident);
        assert s == hole + Unparse(t.rest);
        HoleTextAtStart(t.ident, Unparse(t.rest));
        assert s[..|hole|] == hole && s[|hole|..] == Unparse(t.rest);
        ParseUnique(t.rest);
      }
    } else {
      var shorter := if t.Tail? then Tail(t.text[1..]) else Cut(t.text[1..], t.ident, t.rest);
      assert t.text == [t.text[0]] + t.text[1..];
      UnparsePrepend(t.text[0], shorter);
      SuffixHoleFree(t.text);
      NoHoleLeavesText(t);
      assert s[1..] == Unparse(shorter);
      ParseUnique(shorter);
    }
  }
}
