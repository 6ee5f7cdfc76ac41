/** The strings that stand for role subjects and role references. */
module Subjects {
  import opened Outcomes
  import opened Text
  import opened Names

  datatype SubjectValue = SubjectValue(kind: string, apiGroup: string, name: string, namespace: string)

  datatype RoleRefValue = RoleRefValue(apiGroup: string, kind: string, name: string)

  const ZERO_SUBJECT := SubjectValue("", "", "", "")
  const ZERO_ROLE_REF := RoleRefValue("", "", "")

  function GroupKind(apiGroup: string, kind: string): string {
    if apiGroup != "" then apiGroup + "." + kind else kind
  }

  function SubjectText(v: SubjectValue): string {
    if v.namespace != "" then GroupKind(v.apiGroup, v.kind) + ":" + v.namespace + ":" + Escape(v.name)
    else GroupKind(v.apiGroup, v.kind) + ":" + Escape(v.name)
  }

  function RoleRefText(v: RoleRefValue): string {
    GroupKind(v.apiGroup, v.kind) + ":" + Escape(v.name)
  }

  /** strings.LastIndex(s, "."). */
  function LastDot(s: string): (i: int)
    ensures -1 <= i < |s| && (i >= 0 ==> s[i] == '.')
    ensures forall k :: i < k < |s| ==> s[k] != '.'
  {
    LastDotBefore(s, |s|)
  }

  function LastDotBefore(s: string, n: nat): (i: int)
    requires n <= |s|
    ensures -1 <= i < n && (i >= 0 ==> s[i] == '.')
    ensures forall k :: i < k < n ==> s[k] != '.'
  {
    if n == 0 then -1 else if s[n - 1] == '.' then n - 1 else LastDotBefore(s, n - 1)
  }

  /** The receiver after reading the string: what the string does not mention is left as it was. */
  function ReadSubject(before: SubjectValue, str: string): Option<SubjectValue> {
    var segments := Cut(str, false);
    if |segments| != 3 && |segments| != 2 then None
    else
      var dot := LastDot(segments[0]);
      var headed := if dot >= 0 then before.(apiGroup := segments[0][..dot], kind := segments[0][dot + 1..])
                    else before.(kind := segments[0]);
      Some(if |segments| == 2 then headed.(name := Unescape(segments[1], false))
           else headed.(namespace := segments[1], name := Unescape(segments[2], false)))
  }

  /** The receiver after reading, and whether that was a success: without a group the name has
      already been written when the error is found. */
  function ReadRoleRef(before: RoleRefValue, str: string): (bool, RoleRefValue) {
    var segments := Cut(str, false);
    if |segments| != 2 then (false, before)
    else
      var named := before.(name := Unescape(segments[1], false));
      var dot := LastDot(segments[0]);
      if dot < 0 then (false, named)
      else (true, named.(apiGroup := segments[0][..dot], kind := segments[0][dot + 1..]))
  }

  /** The kind has no dot, and neither group and kind nor the namespace would be cut. */
  predicate Writable(v: SubjectValue) {
    '.' !in v.kind && Unbroken(GroupKind(v.apiGroup, v.kind)) && (v.namespace != "" ==> Unbroken(v.namespace))
  }

  predicate Referable(v: RoleRefValue) {
    v.apiGroup != "" && '.' !in v.kind && Unbroken(GroupKind(v.apiGroup, v.kind))
  }

  class Subject {
    var kind: string
    var apiGroup: string
    var name: string
    var namespace: string

    constructor (v: SubjectValue)
      ensures Value() == v
    {
      kind, apiGroup, name, namespace := v.kind, v.apiGroup, v.name, v.namespace;
    }

    function Value(): SubjectValue
      reads this
    {
      SubjectValue(kind, apiGroup, name, namespace)
    }

    /** The text stands for the subject, and is read back as it, exactly when it is `Writable`. */
    method Marshal() returns (str: string)
      ensures str == SubjectText(Value())
      ensures ReadSubject(ZERO_SUBJECT, str) == Some(Value()) <==> Writable(Value())
    {
      SubjectRoundTrip(Value());
      var escaped := EscapeName(name);
      if |namespace| > 0 {
        return GroupKind(apiGroup, kind) + ":" + namespace + ":" + escaped;
      }
      return GroupKind(apiGroup, kind) + ":" + escaped;
    }

    method Unmarshal(str: string) returns (ok: bool)
      modifies this
      ensures match ReadSubject(old(Value()), str)
              case None => !ok && Value() == old(Value())
              case Some(v) => ok && Value() == v
    {
      hide Cut, Unescape, LastDot;
      var segments := SplitAtUnescapedColons(str);
      if |segments| != 3 && |segments| != 2 {
        return false;
      }
      var splitAt := LastDot(segments[0]);
      if splitAt >= 0 {
        apiGroup := segments[0][..splitAt];
        kind := segments[0][splitAt + 1..];
      } else {
        kind := segments[0];
      }
      if |segments| == 2 {
        name := UnescapeName(segments[1]);
      } else {
        namespace := segments[1];
        name := UnescapeName(segments[2]);
      }
      return true;
    }
  }

  class RoleRef {
    var apiGroup: string
    var kind: string
    var name: string

    constructor (v: RoleRefValue)
      ensures Value() == v
    {
      apiGroup, kind, name := v.apiGroup, v.kind, v.name;
    }

    function Value(): RoleRefValue
      reads this
    {
      RoleRefValue(apiGroup, kind, name)
    }

    method Marshal() returns (str: string)
      ensures str == RoleRefText(Value())
      ensures ReadRoleRef(ZERO_ROLE_REF, str) == (true, Value()) <==> Referable(Value())
    {
      RoleRefRoundTrip(Value());
      var escaped := EscapeName(name);
      return GroupKind(apiGroup, kind) + ":" + escaped;
    }

    method Unmarshal(str: string) returns (ok: bool)
      modifies this
      ensures (ok, Value()) == ReadRoleRef(old(Value()), str)
    {
      hide Cut, Unescape, LastDot;
      var segments := SplitAtUnescapedColons(str);
      if |segments| != 2 {
        return false;
      }
      name := UnescapeName(segments[1]);
      var splitAt := LastDot(segments[0]);
      if splitAt < 0 {
        return false;
      }
      apiGroup := segments[0][..splitAt];
      kind := segments[0][splitAt + 1..];
      return true;
    }
  }

  // ----- Round trips -----

  lemma LastDotOf(apiGroup: string, kind: string)
    requires '.' !in kind
    ensures LastDot(kind) == -1
    ensures LastDot(apiGroup + "." + kind) == |apiGroup|
    ensures var s := apiGroup + "." + kind; s[..|apiGroup|] == apiGroup && s[|apiGroup| + 1..] == kind
  {
    var s := apiGroup + "." + kind;
    assert s[|apiGroup|] == '.';
    assert forall k :: |apiGroup| < k < |s| ==> s[k] == kind[k - |apiGroup| - 1] && s[k] in kind;
  }

  /** What is read from a head into an empty receiver. */
  predicate Headed(s: string, apiGroup: string, kind: string) {
    var dot := LastDot(s);
    if dot >= 0 then s[..dot] == apiGroup && s[dot + 1..] == kind else apiGroup == "" && s == kind
  }

  /** Group and kind cannot be told from each other where the kind has a dot. */
  lemma HeadRead(apiGroup: string, kind: string)
    ensures '.' !in kind <==> Headed(GroupKind(apiGroup, kind), apiGroup, kind)
  {
    if '.' !in kind {
      LastDotOf(apiGroup, kind);
    }
  }

  /** A subject survives, for any name, exactly when its kind has no dot and neither its group and
      kind nor its namespace hold an unescaped colon or a dangling backslash. */
  lemma SubjectRoundTrip(v: SubjectValue)
    ensures ReadSubject(ZERO_SUBJECT, SubjectText(v)) == Some(v) <==> Writable(v)
  {
    hide Cut, Unescape, Escape, Headed, ReadSubject, SubjectText, EndsEscaped, Unbroken;
    HeadRead(v.apiGroup, v.kind);
    EscapeRoundTrip(v.name);
    SubjectRead(v, SubjectText(v));
    if Unbroken(GroupKind(v.apiGroup, v.kind)) && (v.namespace != "" ==> Unbroken(v.namespace)) {
      SubjectPieces(v);
    } else if ReadSubject(ZERO_SUBJECT, SubjectText(v)) == Some(v) {
      SubjectBroken(v);
    }
  }

  lemma SubjectPieces(v: SubjectValue)
    requires Unbroken(GroupKind(v.apiGroup, v.kind)) && (v.namespace != "" ==> Unbroken(v.namespace))
    ensures Cut(SubjectText(v), false) == if v.namespace != "" then [GroupKind(v.apiGroup, v.kind), v.namespace, Escape(v.name)]
                                          else [GroupKind(v.apiGroup, v.kind), Escape(v.name)]
  {
    hide Cut, Escape, EndsEscaped;
    var head := GroupKind(v.apiGroup, v.kind);
    EscapeRoundTrip(v.name);
    if v.namespace != "" {
      CutAfter(v.namespace, Escape(v.name));
      CutAfter(head, v.namespace + ":" + Escape(v.name));
      assert head + ":" + (v.namespace + ":" + Escape(v.name)) == SubjectText(v);
    } else {
      CutAfter(head, Escape(v.name));
    }
  }

  /** What was read back as the head is the head. */
  lemma HeadBack(s: string, apiGroup: string, kind: string, rest: string)
    requires Headed(s, apiGroup, kind)
    requires s + ":" <= GroupKind(apiGroup, kind) + ":" + rest
    ensures s == GroupKind(apiGroup, kind) && '.' !in kind
  {
    var dot := LastDot(s);
    assert s != "" ==> (GroupKind(apiGroup, kind) + ":" + rest)[0] == s[0];
    assert kind != "" ==> kind[0] in kind;
    if dot >= 0 {
      assert s == s[..dot] + "." + s[dot + 1..];
      assert forall k :: 0 <= k < |kind| ==> kind[k] == s[dot + 1 + k];
    }
  }

  function AfterHead(v: SubjectValue): string {
    if v.namespace != "" then v.namespace + ":" + Escape(v.name) else Escape(v.name)
  }

  lemma TextAfterHead(v: SubjectValue)
    ensures SubjectText(v) == GroupKind(v.apiGroup, v.kind) + ":" + AfterHead(v)
  {
  }

  lemma SubjectBroken(v: SubjectValue)
    requires ReadSubject(ZERO_SUBJECT, SubjectText(v)) == Some(v)
    ensures '.' !in v.kind && Unbroken(GroupKind(v.apiGroup, v.kind)) && (v.namespace != "" ==> Unbroken(v.namespace))
  {
    var text := SubjectText(v);
    var pieces := Cut(text, false);
    PiecesUnbroken(text, false);
    JoinCut(text, false);
    SubjectRead(v, text);
    hide Cut, Unescape, EndsEscaped, ReadSubject, Headed;
    FirstPiece(pieces, text);
    TextAfterHead(v);
    hide LastDot, GroupKind, SubjectText, AfterHead;
    HeadBack(pieces[0], v.apiGroup, v.kind, AfterHead(v));
  }

  lemma SubjectRead(v: SubjectValue, text: string)
    ensures var pieces := Cut(text, false);
      ReadSubject(ZERO_SUBJECT, text) == Some(v) <==>
      || (|pieces| == 2 && Headed(pieces[0], v.apiGroup, v.kind) && v.namespace == "" && v.name == Unescape(pieces[1], false))
      || (|pieces| == 3 && Headed(pieces[0], v.apiGroup, v.kind) && v.namespace == pieces[1] && v.name == Unescape(pieces[2], false))
  {
    hide Cut, Unescape, LastDot;
  }

  lemma FirstPiece(pieces: seq<string>, text: string)
    requires |pieces| > 1 && Join(pieces, ":") == text
    ensures pieces[0] + ":" <= text
  {
  }

  /** A role reference survives, for any name, exactly when it has a group, a kind without a dot, and
      no unescaped colon or dangling backslash in either. */
  lemma RoleRefRoundTrip(v: RoleRefValue)
    ensures ReadRoleRef(ZERO_ROLE_REF, RoleRefText(v)) == (true, v) <==> Referable(v)
  {
    var head, text := GroupKind(v.apiGroup, v.kind), RoleRefText(v);
    HeadRead(v.apiGroup, v.kind);
    EscapeRoundTrip(v.name);
    RoleRefRead(v, text);
    if Unbroken(head) {
      CutAfter(head, Escape(v.name));
      if '.' !in v.kind {
        NoDot(head, v.apiGroup, v.kind);
      }
    } else if ReadRoleRef(ZERO_ROLE_REF, text) == (true, v) {
      RoleRefBroken(v);
    }
  }

  lemma NoDot(head: string, apiGroup: string, kind: string)
    requires head == GroupKind(apiGroup, kind) && '.' !in kind
    ensures LastDot(head) >= 0 <==> apiGroup != ""
  {
    LastDotOf(apiGroup, kind);
  }

  lemma RoleRefRead(v: RoleRefValue, text: string)
    ensures var pieces := Cut(text, false);
      ReadRoleRef(ZERO_ROLE_REF, text) == (true, v) <==>
      |pieces| == 2 && LastDot(pieces[0]) >= 0 && Headed(pieces[0], v.apiGroup, v.kind) && v.name == Unescape(pieces[1], false)
  {
    hide Cut, Unescape, LastDot;
  }

  lemma RoleRefBroken(v: RoleRefValue)
    requires ReadRoleRef(ZERO_ROLE_REF, RoleRefText(v)) == (true, v)
    ensures v.apiGroup != "" && '.' !in v.kind && Unbroken(GroupKind(v.apiGroup, v.kind))
  {
    var text := RoleRefText(v);
    var pieces := Cut(text, false);
    PiecesUnbroken(text, false);
    JoinCut(text, false);
    RoleRefRead(v, text);
    hide Cut, Unescape, EndsEscaped, LastDot, Headed, ReadRoleRef;
    FirstPiece(pieces, text);
    HeadBack(pieces[0], v.apiGroup, v.kind, Escape(v.name));
    NoDot(pieces[0], v.apiGroup, v.kind);
  }

  /** Neither colon nor backslash is enough. */
  lemma {:induction false} PlainIsUnbroken(s: string)
    requires ':' !in s && '\\' !in s
    ensures Unbroken(s)
  {
    if s != "" {
      PlainIsUnbroken(s[1..]);
      assert Onto([s[0]], [s[1..]]) == [s] by {
        assert [s[0]] + s[1..] == s;
      }
    }
  }

  /** How a subject and a reference are written, when the name needs no escape. */
  lemma Written(v: SubjectValue)
    requires ':' !in v.name && '\\' !in v.name
    ensures var head := if v.apiGroup == "" then v.kind else v.apiGroup + "." + v.kind;
      && SubjectText(v) == (if v.namespace == "" then head + ":" + v.name else head + ":" + v.namespace + ":" + v.name)
      && RoleRefText(RoleRefValue(v.apiGroup, v.kind, v.name)) == head + ":" + v.name
  {
    PlainEscape(v.name);
  }

  /** How text is read: group and kind part at the last dot, and what is not there stays as it was. */
  lemma ReadByPart(before: SubjectValue, group: string, kind: string, namespace: string, name: string)
    requires Unbroken(group) && Unbroken(kind) && Unbroken(namespace) && '.' !in kind && ':' !in name && '\\' !in name
    requires group != "" && Unbroken(group + "." + kind)
    ensures ReadSubject(before, kind + ":" + name) == Some(before.(kind := kind, name := name))
    ensures ReadSubject(before, group + "." + kind + ":" + name) == Some(before.(apiGroup := group, kind := kind, name := name))
    ensures ReadSubject(before, group + "." + kind + ":" + namespace + ":" + name) ==
      Some(SubjectValue(kind, group, name, namespace))
  {
    PlainName(name);
    var head := group + "." + kind;
    LastDotSplits(group, kind);
    assert LastDot(kind) == -1;
    TwoPieces(kind, name);
    TwoPieces(head, name);
    ThreePieces(head, namespace, name);
  }

  lemma LastDotSplits(group: string, kind: string)
    requires '.' !in kind
    ensures var s := group + "." + kind; LastDot(s) == |group| && s[..|group|] == group && s[|group| + 1..] == kind
  {
    var s := group + "." + kind;
    assert s[|group|] == '.';
    assert forall k :: |group| < k < |s| ==> s[k] == kind[k - |group| - 1];
  }

  lemma {:induction false} PlainName(name: string)
    requires ':' !in name && '\\' !in name
    ensures Cut(name, false) == [name] && Unescape(name, false) == name
  {
    if name != "" {
      PlainName(name[1..]);
      assert [name[0]] + name[1..] == name;
    }
  }

  lemma TwoPieces(a: string, name: string)
    requires Unbroken(a) && Cut(name, false) == [name]
    ensures Cut(a + ":" + name, false) == [a, name]
  {
    CutAfter(a, name);
  }

  lemma ThreePieces(a: string, b: string, name: string)
    requires Unbroken(a) && Unbroken(b) && Cut(name, false) == [name]
    ensures Cut(a + ":" + b + ":" + name, false) == [a, b, name]
  {
    CutAfter(b, name);
    CutAfter(a, b + ":" + name);
    assert a + ":" + (b + ":" + name) == a + ":" + b + ":" + name;
  }
}
