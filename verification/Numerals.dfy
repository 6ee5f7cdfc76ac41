/** strconv.ParseInt and the %d and %o verbs, in the two bases the repository uses. */
module Numerals {
  import opened Outcomes

  newtype int32 = x: int | -0x8000_0000 <= x < 0x8000_0000

  type Base = b: nat | b == 8 || b == 10 witness 10

  function DigitChar(d: nat): (c: char)
    requires d < 10
    ensures c != '-' && c != '+'
  {
    '0' + d as char
  }

  predicate IsDigit(c: char, base: Base) {
    '0' <= c && (c as int - '0' as int) < base
  }

  function Print(n: nat, base: Base): (s: string)
  {
    if n < base then [DigitChar(n)] else Print(n / base, base) + [DigitChar(n % base)]
  }

  function PrintInt(n: int, base: Base): string
  {
    if n < 0 then "-" + Print(-n, base) else Print(n, base)
  }

  /** The value of a digit string, most significant digit first. */
  function Value(s: string, base: Base): Option<nat>
  {
    if s == "" then Some(0)
    else
      var last := s[|s| - 1];
      match Value(s[..|s| - 1], base)
      case Some(v) => if IsDigit(last, base) then Some(v * base + (last as int - '0' as int)) else None
      case None => None
  }

  function Pow2(k: nat): nat {
    if k == 0 then 1 else 2 * Pow2(k - 1)
  }

  lemma {:induction false} Pow2Positive(k: nat)
    ensures Pow2(k) >= 1
  {
    if k > 0 {
      Pow2Positive(k - 1);
    }
  }

  lemma Pow2Of31()
    ensures Pow2(31) == 0x8000_0000
  {
    assert Pow2(8) == 0x100;
    assert Pow2(16) == 0x1_0000;
    assert Pow2(24) == 0x100_0000;
  }

  /** strconv.ParseInt(s, base, bits); None is a syntax or a range error. */
  function ParseInt(s: string, base: Base, bits: nat): Option<int>
    requires bits >= 1
  {
    if s == "" then None
    else
      var signed := s[0] == '-' || s[0] == '+';
      var digits := if signed then s[1..] else s;
      if digits == "" then None
      else
        match Value(digits, base)
        case None => None
        case Some(v) =>
          if s[0] == '-' then (if v > Pow2(bits - 1) then None else Some(0 - v))
          else if v >= Pow2(bits - 1) then None else Some(v)
  }

  /** ParseInt keeps to 32 bits. */
  lemma ParsedFits(s: string)
    ensures var n := ParseInt(s, 10, 32); n.Some? ==> -0x8000_0000 <= n.value < 0x8000_0000
  {
    Pow2Of31();
  }

  lemma {:induction false} ValuePrint(n: nat, base: Base)
    ensures Print(n, base) != "" && Print(n, base)[0] != '-' && Print(n, base)[0] != '+'
    ensures Value(Print(n, base), base) == Some(n)
  {
    if n < base {
      ValueSnoc("", n, base);
      assert "" + [DigitChar(n)] == Print(n, base);
    } else {
      ValuePrint(n / base, base);
      assert n / base * base + n % base == n by { DivMod(n, base); }
      ValueSnoc(Print(n / base, base), n % base, base);
    }
  }

  lemma DivMod(n: nat, base: Base)
    ensures n / base * base + n % base == n
  {
    if base == 8 {
      assert n / 8 * 8 + n % 8 == n;
    }
  }

  lemma ValueSnoc(s: string, d: nat, base: Base)
    requires d < base
    ensures Value(s + [DigitChar(d)], base) ==
            match Value(s, base) { case Some(v) => Some(v * base + d) case None => None }
  {
    var t := s + [DigitChar(d)];
    assert t[..|t| - 1] == s;
  }

  /** Parsing undoes printing on the whole range of a `bits`-wide integer. */
  lemma ParsePrint(n: int, base: Base, bits: nat)
    requires bits >= 1
    requires 0 - Pow2(bits - 1) <= n < Pow2(bits - 1)
    ensures ParseInt(PrintInt(n, base), base, bits) == Some(n)
  {
    ValuePrint(if n < 0 then -n else n, base);
    if n < 0 {
      assert PrintInt(n, base)[1..] == Print(-n, base);
    }
  }
}
