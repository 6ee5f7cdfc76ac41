/** Case-insensitive comparison of field names: the specialised functions of yaml/fields.go
    against general UTF-8 case folding. */
module Folding {

  type byte = b: nat | b < 0x100

  const RUNE_SELF: nat := 0x80
  const RUNE_ERROR: nat := 0xFFFD
  const KELVIN: nat := 0x212A
  const SMALL_LONG_ESS: nat := 0x017F

  // ----- UTF-8, as utf8.DecodeRune reads it -----

  datatype Decoded = Decoded(rune: nat, size: nat)

  predicate Continues(t: seq<byte>, i: nat, lo: nat, hi: nat) {
    i < |t| && lo <= t[i] <= hi
  }

  /** The six low bits of a continuation byte. */
  function Payload(b: nat): nat
    requires 0x80 <= b <= 0xBF
  {
    b - 0x80
  }

  /** Malformed input decodes as one byte of RUNE_ERROR. */
  function DecodeRune(t: seq<byte>): (d: Decoded)
    requires t != []
    ensures 1 <= d.size <= |t|
    ensures t[0] < RUNE_SELF ==> d == Decoded(t[0], 1)
    ensures t[0] >= RUNE_SELF ==> d.rune >= RUNE_SELF
  {
    var b := t[0];
    if b < RUNE_SELF then Decoded(b, 1)
    else if 0xC2 <= b <= 0xDF && Continues(t, 1, 0x80, 0xBF) then
      Decoded((b - 0xC0) * 0x40 + Payload(t[1]), 2)
    else if 0xE0 <= b <= 0xEF
         && Continues(t, 1, if b == 0xE0 then 0xA0 else 0x80, if b == 0xED then 0x9F else 0xBF)
         && Continues(t, 2, 0x80, 0xBF) then
      Decoded((b - 0xE0) * 0x1000 + Payload(t[1]) * 0x40 + Payload(t[2]), 3)
    else if 0xF0 <= b <= 0xF4
         && Continues(t, 1, if b == 0xF0 then 0x90 else 0x80, if b == 0xF4 then 0x8F else 0xBF)
         && Continues(t, 2, 0x80, 0xBF) && Continues(t, 3, 0x80, 0xBF) then
      Decoded((b - 0xF0) * 0x40000 + Payload(t[1]) * 0x1000 + Payload(t[2]) * 0x40 + Payload(t[3]), 4)
    else Decoded(RUNE_ERROR, 1)
  }

  function Runes(t: seq<byte>): seq<nat>
    decreases |t|
  {
    if t == [] then [] else [DecodeRune(t).rune] + Runes(t[DecodeRune(t).size..])
  }

  /** The characters that UTF-8 writes in two, three and four bytes, by their numbers in base 64 (section
      3 of RFC 3629); whatever comes after them. */
  lemma DecodesTwo(a: nat, b: nat, rest: seq<byte>)
    requires b < 64 && 0x80 <= 64 * a + b < 0x800
    ensures DecodeRune([0xC0 + a, 0x80 + b] + rest) == Decoded(64 * a + b, 2)
  {
    Starts([0xC0 + a, 0x80 + b], rest);
  }

  lemma DecodesThree(a: nat, b: nat, c: nat, rest: seq<byte>)
    requires b < 64 && c < 64 && 0x800 <= 4096 * a + 64 * b + c < 0x10000
    requires !(0xD800 <= 4096 * a + 64 * b + c < 0xE000)
    ensures DecodeRune([0xE0 + a, 0x80 + b, 0x80 + c] + rest) == Decoded(4096 * a + 64 * b + c, 3)
  {
    Starts([0xE0 + a, 0x80 + b, 0x80 + c], rest);
  }

  lemma DecodesFour(a: nat, b: nat, c: nat, d: nat, rest: seq<byte>)
    requires b < 64 && c < 64 && d < 64 && 0x10000 <= 262144 * a + 4096 * b + 64 * c + d < 0x110000
    ensures DecodeRune([0xF0 + a, 0x80 + b, 0x80 + c, 0x80 + d] + rest) == Decoded(262144 * a + 4096 * b + 64 * c + d, 4)
  {
    Starts([0xF0 + a, 0x80 + b, 0x80 + c, 0x80 + d], rest);
  }

  lemma Starts(head: seq<byte>, rest: seq<byte>)
    ensures forall i :: 0 <= i < |head| ==> (head + rest)[i] == head[i]
  {
  }

  // ----- General folding: bytes.EqualFold -----

  predicate IsUpper(r: nat) { 'A' as nat <= r <= 'Z' as nat }

  predicate IsLower(r: nat) { 'a' as nat <= r <= 'z' as nat }

  predicate IsLetter(r: nat) { IsUpper(r) || IsLower(r) }

  /** What an ASCII character folds to; K and S have a third, non-ASCII member each. */
  predicate AsciiFold(a: nat, r: nat) {
    || r == a
    || (IsUpper(a) && r == a + 32)
    || (IsLower(a) && r == a - 32)
    || ((a == 'k' as nat || a == 'K' as nat) && r == KELVIN)
    || ((a == 's' as nat || a == 'S' as nat) && r == SMALL_LONG_ESS)
  }

  /** `wide` is Unicode's simple folding between characters that are both outside ASCII. */
  predicate SameFold(a: nat, r: nat, wide: (nat, nat) -> bool) {
    if a < RUNE_SELF then AsciiFold(a, r)
    else if r < RUNE_SELF then AsciiFold(r, a)
    else a == r || wide(a, r)
  }

  predicate EqualFold(s: seq<byte>, t: seq<byte>, wide: (nat, nat) -> bool) {
    var a, b := Runes(s), Runes(t);
    |a| == |b| && forall i :: 0 <= i < |a| ==> SameFold(a[i], b[i], wide)
  }

  predicate IsAscii(s: seq<byte>) {
    forall i :: 0 <= i < |s| ==> s[i] < RUNE_SELF
  }

  predicate IsSpecial(b: byte) {
    b == 'k' as nat || b == 'K' as nat || b == 's' as nat || b == 'S' as nat
  }

  lemma {:induction false} AsciiRunes(s: seq<byte>)
    requires IsAscii(s)
    ensures |Runes(s)| == |s| && forall i :: 0 <= i < |s| ==> Runes(s)[i] == s[i]
  {
    if s != [] {
      AsciiRunes(s[1..]);
    }
  }

  /** Folding an ASCII string consumes both sides one rune at a time. */
  lemma EqualFoldStep(s: seq<byte>, t: seq<byte>, wide: (nat, nat) -> bool)
    requires IsAscii(s)
    ensures s == [] ==> (EqualFold(s, t, wide) <==> t == [])
    ensures s != [] && t == [] ==> !EqualFold(s, t, wide)
    ensures s != [] && t != [] ==>
      (EqualFold(s, t, wide) <==> AsciiFold(s[0], DecodeRune(t).rune) && EqualFold(s[1..], t[DecodeRune(t).size..], wide))
  {
    AsciiRunes(s);
    if s != [] && t != [] {
      AsciiRunes(s[1..]);
      var a, b, d := Runes(s), Runes(t), DecodeRune(t);
      var a', b' := Runes(s[1..]), Runes(t[d.size..]);
      assert b == [d.rune] + b' && a == [a[0]] + a';
      if EqualFold(s, t, wide) {
        forall i | 0 <= i < |a'|
          ensures SameFold(a'[i], b'[i], wide)
        {
          assert SameFold(a[i + 1], b[i + 1], wide);
        }
      }
    }
  }

  // ----- The choice of function -----

  datatype Fold = General | Right | Ascii | Letter

  /** `b & caseMask`, which clears bit 0x20. */
  function Masked(b: byte): byte {
    if b / 32 % 2 == 1 then b - 32 else b
  }

  /** foldFunc. */
  method FoldFunc(s: seq<byte>) returns (fold: Fold)
    ensures fold.General? <==> !IsAscii(s)
    ensures fold.Right? <==> IsAscii(s) && exists i :: 0 <= i < |s| && IsSpecial(s[i])
    ensures fold.Letter? <==> forall i :: 0 <= i < |s| ==> IsLetter(s[i]) && !IsSpecial(s[i])
  {
    var nonLetter, special := false, false;
    for i := 0 to |s|
      invariant forall k :: 0 <= k < i ==> s[k] < RUNE_SELF
      invariant special <==> exists k :: 0 <= k < i && IsSpecial(s[k])
      invariant nonLetter <==> exists k :: 0 <= k < i && !IsLetter(s[k])
    {
      var b := s[i];
      if b >= RUNE_SELF {
        return General;
      }
      var upper := Masked(b);
      if upper < 'A' as nat || upper > 'Z' as nat {
        nonLetter := true;
      } else if upper == 'K' as nat || upper == 'S' as nat {
        special := true;
      }
    }
    if special {
      return Right;
    }
    return if nonLetter then Ascii else Letter;
  }

  /** equalFoldRight is general folding for every ASCII string. */
  method EqualFoldRight(s: seq<byte>, t: seq<byte>, ghost wide: (nat, nat) -> bool) returns (r: bool)
    requires IsAscii(s)
    ensures r == EqualFold(s, t, wide)
  {
    var rest := t;
    for i := 0 to |s|
      invariant EqualFold(s, t, wide) <==> EqualFold(s[i..], rest, wide)
    {
      var sb := s[i];
      EqualFoldStep(s[i..], rest, wide);
      assert s[i..][1..] == s[i + 1..];
      if rest == [] {
        return false;
      }
      var tb := rest[0];
      if tb < RUNE_SELF {
        if sb != tb {
          var sbUpper := Masked(sb);
          if 'A' as nat <= sbUpper <= 'Z' as nat {
            if sbUpper != Masked(tb) {
              return false;
            }
          } else {
            return false;
          }
        }
        rest := rest[1..];
      } else {
        // Only two runes beyond ASCII fold to an ASCII letter: to k and to s.
        var d := DecodeRune(rest);
        if sb == 's' as nat || sb == 'S' as nat {
          if d.rune != SMALL_LONG_ESS {
            return false;
          }
        } else if sb == 'k' as nat || sb == 'K' as nat {
          if d.rune != KELVIN {
            return false;
          }
        } else {
          return false;
        }
        rest := rest[d.size..];
      }
    }
    EqualFoldStep(s[|s|..], rest, wide);
    return |rest| == 0;
  }

  /** Without k and s, folding never leaves ASCII and compares byte by byte. */
  lemma {:induction false} BytewiseFold(s: seq<byte>, t: seq<byte>, wide: (nat, nat) -> bool)
    requires IsAscii(s) && forall i :: 0 <= i < |s| ==> !IsSpecial(s[i])
    ensures EqualFold(s, t, wide) <==> |s| == |t| && forall i :: 0 <= i < |s| ==> AsciiFold(s[i], t[i])
  {
    EqualFoldStep(s, t, wide);
    if s != [] && t != [] {
      var d := DecodeRune(t);
      if t[0] < RUNE_SELF {
        BytewiseFold(s[1..], t[1..], wide);
        if |s| == |t| {
          assert (forall i :: 0 <= i < |s| ==> AsciiFold(s[i], t[i])) <==>
                 (AsciiFold(s[0], t[0]) && forall i :: 0 <= i < |s| - 1 ==> AsciiFold(s[1..][i], t[1..][i])) by {
            FirstAndRest(s, t);
          }
        }
      } else {
        assert !AsciiFold(s[0], t[0]);
      }
    }
  }

  lemma FirstAndRest(s: seq<byte>, t: seq<byte>)
    requires |s| == |t| > 0
    ensures (forall i :: 0 <= i < |s| ==> AsciiFold(s[i], t[i])) <==>
            (AsciiFold(s[0], t[0]) && forall i :: 0 <= i < |s| - 1 ==> AsciiFold(s[1..][i], t[1..][i]))
  {
    if AsciiFold(s[0], t[0]) && forall i :: 0 <= i < |s| - 1 ==> AsciiFold(s[1..][i], t[1..][i]) {
      forall i | 0 <= i < |s|
        ensures AsciiFold(s[i], t[i])
      {
        if i > 0 {
          assert AsciiFold(s[1..][i - 1], t[1..][i - 1]);
        }
      }
    }
  }

  method AsciiEqualFold(s: seq<byte>, t: seq<byte>, ghost wide: (nat, nat) -> bool) returns (r: bool)
    requires IsAscii(s) && forall i :: 0 <= i < |s| ==> !IsSpecial(s[i])
    ensures r == EqualFold(s, t, wide)
  {
    BytewiseFold(s, t, wide);
    if |s| != |t| {
      return false;
    }
    for i := 0 to |s|
      invariant forall k :: 0 <= k < i ==> AsciiFold(s[k], t[k])
    {
      var sb, tb := s[i], t[i];
      if sb != tb {
        if IsLetter(sb) {
          if Masked(sb) != Masked(tb) {
            return false;
          }
        } else {
          return false;
        }
      }
    }
    return true;
  }

  method SimpleLetterEqualFold(s: seq<byte>, t: seq<byte>, ghost wide: (nat, nat) -> bool) returns (r: bool)
    requires forall i :: 0 <= i < |s| ==> IsLetter(s[i]) && !IsSpecial(s[i])
    ensures r == EqualFold(s, t, wide)
  {
    BytewiseFold(s, t, wide);
    if |s| != |t| {
      return false;
    }
    for i := 0 to |s|
      invariant forall k :: 0 <= k < i ==> AsciiFold(s[k], t[k])
    {
      if Masked(s[i]) != Masked(t[i]) {
        return false;
      }
    }
    return true;
  }

  /** field.equalFold: the function chosen for a name agrees with general folding on every text. */
  method ChosenFold(s: seq<byte>, t: seq<byte>, wide: (nat, nat) -> bool) returns (r: bool)
    ensures r == EqualFold(s, t, wide)
  {
    var fold := FoldFunc(s);
    match fold
    case General => r := EqualFold(s, t, wide);
    case Right => r := EqualFoldRight(s, t, wide);
    case Ascii => r := AsciiEqualFold(s, t, wide);
    case Letter => r := SimpleLetterEqualFold(s, t, wide);
  }

  /** The Kelvin sign folds to k, and the long s to s, whatever the other characters fold to. */
  lemma SpecialLetters(wide: (nat, nat) -> bool)
    ensures EqualFold(['k' as nat], [0xE2, 0x84, 0xAA], wide) && EqualFold(['K' as nat], [0xE2, 0x84, 0xAA], wide)
    ensures EqualFold(['s' as nat], [0xC5, 0xBF], wide) && EqualFold(['S' as nat], [0xC5, 0xBF], wide)
  {
    DecodesThree(0x2, 0x4, 0x2A, []);
    DecodesTwo(0x5, 0x3F, []);
    assert [0xE2, 0x84, 0xAA] + [] == [0xE2, 0x84, 0xAA] && [0xC5, 0xBF] + [] == [0xC5, 0xBF];
    assert Runes([0xE2, 0x84, 0xAA]) == [0x212A] && Runes([0xC5, 0xBF]) == [0x17F];
    forall b: byte | b < 0x80
      ensures Runes([b]) == [b]
    {
      assert Runes([]) == [];
    }
  }

  /** ASCII characters fold to each other when they are the same, or the same letter in the two cases. */
  lemma AsciiLetters(a: byte, b: byte, wide: (nat, nat) -> bool)
    requires a < 0x80 && b < 0x80
    ensures EqualFold([a], [b], wide) <==>
      a == b || ('a' as nat <= a <= 'z' as nat && b + 32 == a) || ('a' as nat <= b <= 'z' as nat && a + 32 == b)
  {
    assert Runes([]) == [] && Runes([a]) == [a] && Runes([b]) == [b];
  }
}
