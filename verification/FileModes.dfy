/** File modes as octal text, alone and after a key. */
module FileModes {
  import opened Outcomes
  import Numerals

  type int32 = Numerals.int32

  /** The JSON values that are told apart: integers and strings; anything else counts as Other. */
  datatype Json = Number(n: int) | Str(s: string) | Other

  /** `0%o`. */
  function ModeText(m: int32): string {
    "0" + Numerals.PrintInt(m as int, 8)
  }

  /** A number out of range, like every other failure to read, ends up as the empty string. */
  function ReadMode(data: Json): Option<int32> {
    if data.Number? && -0x8000_0000 <= data.n < 0x8000_0000 then Some(data.n as int32)
    else
      var str := if data.Str? then data.s else "";
      OctalFits(str);
      match Numerals.ParseInt(str, 8, 32)
      case None => None
      case Some(v) => Some(v as int32)
  }

  lemma OctalFits(s: string)
    ensures var v := Numerals.ParseInt(s, 8, 32); v.Some? ==> -0x8000_0000 <= v.value < 0x8000_0000
  {
    Numerals.Pow2Of31();
  }

  // ----- Octal text -----

  lemma {:induction false} LeadingZero(s: string)
    ensures Numerals.Value("0" + s, 8) == Numerals.Value(s, 8)
    decreases |s|
  {
    var t := "0" + s;
    if s == "" {
      assert t[..|t| - 1] == "";
    } else {
      assert t[..|t| - 1] == "0" + s[..|s| - 1];
      LeadingZero(s[..|s| - 1]);
    }
  }

  function Power8(k: nat): nat {
    if k == 0 then 1 else 8 * Power8(k - 1)
  }

  /** A number is the mode, if it is one. */
  lemma NumberIsMode(n: int)
    ensures -0x8000_0000 <= n < 0x8000_0000 ==> ReadMode(Number(n)) == Some(n as int32)
    ensures !(-0x8000_0000 <= n < 0x8000_0000) ==> ReadMode(Number(n)) == None
    ensures ReadMode(Other) == None
  {
  }

  /** Text is read in octal, most significant digit first; what is no octal number is an error. */
  lemma OctalDigits(s: string, c: char)
    requires '0' <= c <= '7' && ReadMode(Str(s)).Some? && s[0] != '-'
    ensures ReadMode(Str([c])) == Some((c as int - '0' as int) as int32)
    ensures var m := 8 * ReadMode(Str(s)).value as int + (c as int - '0' as int);
      ReadMode(Str(s + [c])) == if m < 0x8000_0000 then Some(m as int32) else None
  {
    Numerals.Pow2Of31();
    hide Numerals.Pow2;
    assert Numerals.Value([c], 8) == Some(c as int - '0' as int) by {
      assert [c][..0] == "" && [c][|[c]| - 1] == c;
    }
    assert (s + [c])[..|s|] == s && (s + [c])[0] == s[0];
    var digits := if s[0] == '+' then s[1..] else s;
    var more := if s[0] == '+' then (s + [c])[1..] else s + [c];
    assert more == digits + [c] && more[..|more| - 1] == digits;
  }

  /** Mode 0644 and its text. */
  lemma UsualMode(key: string)
    ensures ModeText(420) == "0644" && ReadMode(Str("0644")) == Some(420)
    ensures KeyAndModeText(key, Some(420)) == key + ":0644" && KeyAndModeText(key, None) == key
  {
    assert Numerals.Print(6, 8) == "6" && Numerals.Print(52, 8) == "64" && Numerals.Print(420, 8) == "644";
    ModeRoundTrip(420);
  }

  /** A file mode is read back from its own text exactly when it is not negative. */
  lemma ModeRoundTrip(m: int32)
    ensures ReadMode(Str(ModeText(m))) == Some(m) <==> m >= 0
  {
    var text := ModeText(m);
    var digits := Numerals.PrintInt(m as int, 8);
    LeadingZero(digits);
    assert text[0] == '0';
    if m >= 0 {
      Numerals.ValuePrint(m as int, 8);
      Numerals.Pow2Of31();
    } else {
      assert digits[0] == '-';
      NotDigits(digits, 0);
    }
  }

  lemma {:induction false} NotDigits(s: string, i: nat)
    requires i < |s| && !Numerals.IsDigit(s[i], 8)
    ensures Numerals.Value(s, 8) == None
    decreases |s|
  {
    if i < |s| - 1 {
      NotDigits(s[..|s| - 1], i);
    }
  }

  // ----- Key and mode -----

  predicate IsOctal(c: char) {
    '0' <= c <= '7'
  }

  /** The regular expression ^(.*):(0[0-7][0-7][0-7])$; the dot matches anything but a newline. */
  predicate MatchesKeyAndMode(s: string) {
    var n := |s| - 5;
    n >= 0 && '\n' !in s[..n] && s[n] == ':' && s[n + 1] == '0' && IsOctal(s[n + 2]) && IsOctal(s[n + 3]) && IsOctal(s[n + 4])
  }

  function KeyAndModeText(key: string, mode: Option<int32>): string {
    match mode
    case None => key
    case Some(m) => key + ":" + ModeText(m)
  }

  /** Key and mode of the receiver after reading; without a mode in the text the receiver keeps its own. */
  function ReadKeyAndMode(before: Option<int32>, str: string): Option<(string, Option<int32>)> {
    if !MatchesKeyAndMode(str) then Some((str, before))
    else
      OctalFits(str[|str| - 4..]);
      match Numerals.ParseInt(str[|str| - 4..], 8, 32)
      case None => None
      case Some(v) => Some((str[..|str| - 5], Some(v as int32)))
  }

  class KeyAndMode {
    var key: string
    var mode: Option<int32>

    constructor (k: string, m: Option<int32>)
      ensures key == k && mode == m
    {
      key, mode := k, m;
    }

    method Marshal() returns (str: string)
      ensures str == KeyAndModeText(key, mode)
    {
      if mode.Some? {
        return key + ":0" + Numerals.PrintInt(mode.value as int, 8);
      }
      return key;
    }

    method Unmarshal(str: string) returns (ok: bool)
      modifies this
      ensures ok && ReadKeyAndMode(old(mode), str) == Some((key, mode))
    {
      MatchedModeParses(mode, str);
      if !MatchesKeyAndMode(str) {
        key := str;
        return true;
      }
      key := str[..|str| - 5];
      var i := Numerals.ParseInt(str[|str| - 4..], 8, 32);
      if i.None? {
        return false;
      }
      OctalFits(str[|str| - 4..]);
      mode := Some(i.value as int32);
      return true;
    }
  }

  /** Three octal digits, no more and no fewer. */
  lemma ThreeDigits(m: int32)
    ensures var digits := Numerals.PrintInt(m as int, 8);
      |digits| == 3 && IsOctal(digits[0]) && IsOctal(digits[1]) && IsOctal(digits[2]) <==> 64 <= m < 512
  {
    var digits := Numerals.PrintInt(m as int, 8);
    if m < 0 {
      assert digits[0] == '-';
    } else {
      PrintedOctal(m as int);
    }
  }

  lemma PrintedOctal(n: nat)
    ensures |Numerals.Print(n, 8)| == 3 <==> 64 <= n < 512
    ensures forall c :: c in Numerals.Print(n, 8) ==> IsOctal(c)
  {
    Digits(n);
    DigitCount(n);
  }

  lemma {:induction false} Digits(n: nat)
    ensures forall c :: c in Numerals.Print(n, 8) ==> IsOctal(c)
  {
    if n >= 8 {
      Digits(n / 8);
    }
  }

  lemma {:induction false} DigitCount(n: nat)
    ensures |Numerals.Print(n, 8)| >= 1
    ensures |Numerals.Print(n, 8)| == 1 <==> n < 8
    ensures |Numerals.Print(n, 8)| == 2 <==> 8 <= n < 64
    ensures |Numerals.Print(n, 8)| == 3 <==> 64 <= n < 512
  {
    if n >= 8 {
      DigitCount(n / 8);
    }
  }

  /** A key with a mode is read back exactly when the mode has three octal digits and the key no newline. */
  lemma KeyWithModeRoundTrip(key: string, m: int32)
    ensures ReadKeyAndMode(None, KeyAndModeText(key, Some(m))) == Some((key, Some(m))) <==>
            0x40 <= m < 0x200 && '\n' !in key
  {
    var digits := Numerals.PrintInt(m as int, 8);
    ThreeDigits(m);
    if |digits| == 3 {
      TextMatches(key, m, digits);
      if m >= 0 {
        ModeRoundTrip(m);
      }
    } else {
      KeyMoved(key, m, digits);
    }
  }

  /** Where the parts of the text are. */
  lemma TextMatches(key: string, m: int32, digits: string)
    requires digits == Numerals.PrintInt(m as int, 8) && |digits| == 3
    ensures var str := KeyAndModeText(key, Some(m));
      && str[..|str| - 5] == key && str[|str| - 4..] == ModeText(m)
      && (MatchesKeyAndMode(str) <==> '\n' !in key && IsOctal(digits[0]) && IsOctal(digits[1]) && IsOctal(digits[2]))
  {
    hide Numerals.PrintInt;
    var str := KeyAndModeText(key, Some(m));
    var n := |str| - 5;
    assert str == key + (":0" + digits);
    assert str[n] == ':' && str[n + 1] == '0' && str[n + 2] == digits[0] && str[n + 3] == digits[1] && str[n + 4] == digits[2];
  }

  /** With more or fewer digits the key read is longer or shorter. */
  lemma KeyMoved(key: string, m: int32, digits: string)
    requires digits == Numerals.PrintInt(m as int, 8) && |digits| != 3
    ensures ReadKeyAndMode(None, KeyAndModeText(key, Some(m))) != Some((key, Some(m)))
  {
    hide Numerals.PrintInt, Numerals.ParseInt;
    var str := KeyAndModeText(key, Some(m));
    assert |str| == |key| + 2 + |digits|;
  }

  lemma {:induction false} OctalValue(s: string)
    requires forall i :: 0 <= i < |s| ==> IsOctal(s[i])
    ensures Numerals.Value(s, 8).Some? && Numerals.Value(s, 8).value < Power8(|s|)
    decreases |s|
  {
    if s != "" {
      OctalValue(s[..|s| - 1]);
    }
  }

  /** What the regular expression lets through is always a number. */
  lemma MatchedModeParses(before: Option<int32>, str: string)
    ensures ReadKeyAndMode(before, str).Some?
  {
    if MatchesKeyAndMode(str) {
      var digits := str[|str| - 4..];
      assert digits[0] == '0' && digits[1] == str[|str| - 3] && digits[2] == str[|str| - 2] && digits[3] == str[|str| - 1];
      OctalValue(digits);
      assert Power8(4) == 0x1000;
      Numerals.Pow2Of31();
    }
  }

  /** A key without a mode is read back exactly when it does not itself look like a key with a mode. */
  lemma KeyAloneRoundTrip(key: string)
    ensures ReadKeyAndMode(None, KeyAndModeText(key, None)) == Some((key, None)) <==> !MatchesKeyAndMode(key)
  {
  }

  /** A colon, 0 and three octal digits at the end are a mode; what stands before is the key, if it is one line. */
  lemma ModeRead(before: Option<int32>, key: string, a: nat, b: nat, c: nat)
    requires a < 8 && b < 8 && c < 8
    ensures var str := key + [':', '0', '0' + a as char, '0' + b as char, '0' + c as char];
      ReadKeyAndMode(before, str) ==
        if '\n' !in key then Some((key, Some((64 * a + 8 * b + c) as int32))) else Some((str, before))
  {
    var str := key + [':', '0', '0' + a as char, '0' + b as char, '0' + c as char];
    var n := |str| - 5;
    assert str[..n] == key;
    var digits := str[|str| - 4..];
    assert digits == ['0', '0' + a as char, '0' + b as char, '0' + c as char];
    assert digits[..3] == ['0', '0' + a as char, '0' + b as char] && digits[..3][..2] == ['0', '0' + a as char];
    assert digits[..3][..2][..1] == ['0'] && digits[..3][..2][..1][..0] == "";
    assert Numerals.Value(digits[..3][..2][..1], 8) == Some(0);
    assert Numerals.Value(digits[..3][..2], 8) == Some(a);
    assert Numerals.Value(digits[..3], 8) == Some(8 * a + b);
    assert Numerals.Value(digits, 8) == Some(64 * a + 8 * b + c);
    Numerals.Pow2Of31();
  }

  /** Any other text is all key, and the receiver keeps its mode. */
  lemma ModeKept(before: Option<int32>, str: string)
    requires |str| < 5 || !(
      str[|str| - 5] == ':' && str[|str| - 4] == '0' &&
      '0' <= str[|str| - 3] <= '7' && '0' <= str[|str| - 2] <= '7' && '0' <= str[|str| - 1] <= '7')
    ensures ReadKeyAndMode(before, str) == Some((str, before))
  {
  }
}
