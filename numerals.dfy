/**
  Decimal numerals: `Number.prototype.toString()` on integers and the
  global `parseInt` on strings (leading white space, an optional sign,
  an optional `0x` prefix that switches to base 16, then the longest run
  of digits; no digits at all is `NaN`, written `None`).
*/
module Numerals {
  import opened Outcomes
  import opened JsStrings

  predicate IsDigit(c: char) {
    '0' <= c <= '9'
  }

  function DigitValue(c: char): (v: nat)
    requires IsDigit(c)
    ensures v < 10
  {
    c as int - '0' as int
  }

  function DigitChar(v: nat): (c: char)
    requires v < 10
    ensures IsDigit(c) && DigitValue(c) == v
  {
    ('0' as int + v) as char
  }

  /** The decimal rendering of a natural number, without leading zeros. */
  function NatToString(n: nat): (s: string)
    ensures |s| >= 1 && forall i :: 0 <= i < |s| ==> IsDigit(s[i])
    ensures |s| > 1 ==> s[0] != '0'
    decreases n
  {
    if n < 10 then [DigitChar(n)] else NatToString(n / 10) + [DigitChar(n % 10)]
  }

  /** `n.toString()` for an integer `n`. */
  function IntToString(n: int): (s: string)
    ensures n < 0 <==> |s| > 0 && s[0] == '-'
  {
    if n < 0 then "-" + NatToString(-n) else NatToString(n)
  }

  /** The value of a run of decimal digits, most significant first. */
  function DecimalValue(s: string): (v: nat)
    requires forall i :: 0 <= i < |s| ==> IsDigit(s[i])
  {
    if s == [] then 0 else DecimalValue(s[..|s| - 1]) * 10 + DigitValue(s[|s| - 1])
  }

  predicate IsHexDigit(c: char) {
    IsDigit(c) || 'a' <= c <= 'f' || 'A' <= c <= 'F'
  }

  function HexDigitValue(c: char): (v: nat)
    requires IsHexDigit(c)
    ensures v < 16
  {
    if IsDigit(c) then DigitValue(c)
    else if 'a' <= c <= 'f' then c as int - 'a' as int + 10
    else c as int - 'A' as int + 10
  }

  function HexValue(s: string): (v: nat)
    requires forall i :: 0 <= i < |s| ==> IsHexDigit(s[i])
  {
    if s == [] then 0 else HexValue(s[..|s| - 1]) * 16 + HexDigitValue(s[|s| - 1])
  }

  /** The longest prefix of `s` whose characters satisfy `p`. */
  function TakeWhile(s: string, p: char -> bool): (r: string)
    ensures |r| <= |s| && r == s[..|r|]
    ensures forall i :: 0 <= i < |r| ==> p(r[i])
    ensures |r| < |s| ==> !p(s[|r|])
  {
    if s == [] || !p(s[0]) then [] else [s[0]] + TakeWhile(s[1..], p)
  }

  /** `s` without its leading white space. */
  function SkipWhiteSpace(s: string): (r: string)
    ensures |r| <= |s| && r == s[|s| - |r|..]
    ensures r == [] || !IsWhiteSpace(r[0])
  {
    if s != [] && IsWhiteSpace(s[0]) then SkipWhiteSpace(s[1..]) else s
  }

  /** The magnitude `parseInt` reads after the sign. */
  function UnsignedPrefix(s: string): (r: Option<int>)
    ensures r.Some? ==> r.value >= 0
  {
    if |s| >= 2 && s[0] == '0' && (s[1] == 'x' || s[1] == 'X') then
      var digits := TakeWhile(s[2..], IsHexDigit);
      if digits == [] then None else Some(HexValue(digits))
    else
      var digits := TakeWhile(s, IsDigit);
      if digits == [] then None else Some(DecimalValue(digits))
  }

  /** `parseInt(s)` with no radix argument; `None` is `NaN`. */
  function ParseInt(s: string): (r: Option<int>)
    ensures SkipWhiteSpace(s) == [] ==> r.None?
  {
    ParseSigned(SkipWhiteSpace(s))
  }

  /** An optional sign, then the magnitude. */
  function ParseSigned(t: string): (r: Option<int>)
  {
    if t == [] then None
    else if t[0] == '-' then Negated(UnsignedPrefix(t[1..]))
    else if t[0] == '+' then UnsignedPrefix(t[1..])
    else UnsignedPrefix(t)
  }

  function Negated(v: Option<int>): (r: Option<int>)
    ensures r.Some? <==> v.Some?
    ensures v.Some? ==> r.value == -v.value
  {
    if v.Some? then Some(-v.value) else None
  }

  /** Reading a rendering back gives the number. */
  lemma {:induction false} DecimalValueOfNatToString(n: nat)
    ensures DecimalValue(NatToString(n)) == n
    decreases n
  {
    if n >= 10 {
      DecimalValueOfNatToString(n / 10);
      var s := NatToString(n);
      assert s[..|s| - 1] == NatToString(n / 10);
    }
  }

  lemma TakeWhileAll(s: string, p: char -> bool)
    requires forall i :: 0 <= i < |s| ==> p(s[i])
    ensures TakeWhile(s, p) == s
  {
    if s != [] {
      TakeWhileAll(s[1..], p);
    }
  }

  /** `parseInt(n.toString()) === n` for every integer `n`. */
  lemma ParseIntOfIntToString(n: int)
    ensures ParseInt(IntToString(n)) == Some(n)
  {
    var s := IntToString(n);
    assert SkipWhiteSpace(s) == s by {
      assert !IsWhiteSpace(s[0]);
    }
    if n < 0 {
      ParseSignedNegative(-n);
    } else {
      ParseSignedNat(n);
    }
  }

  lemma ParseSignedNegative(m: int)
    requires m > 0
    ensures ParseSigned("-" + NatToString(m)) == Some(-m)
  {
    var s := "-" + NatToString(m);
    assert s[1..] == NatToString(m);
    UnsignedPrefixOfNatToString(m);
  }

  lemma ParseSignedNat(m: nat)
    ensures ParseSigned(NatToString(m)) == Some(m)
  {
    var s := NatToString(m);
    assert s[0] != '-' && s[0] != '+' by {
      assert IsDigit(s[0]);
    }
    UnsignedPrefixOfNatToString(m);
  }

  lemma UnsignedPrefixOfNatToString(m: nat)
    ensures UnsignedPrefix(NatToString(m)) == Some(m)
  {
    var digits := NatToString(m);
    assert |digits| >= 2 ==> digits[0] != '0';
    TakeWhileAll(digits, IsDigit);
    DecimalValueOfNatToString(m);
  }

  /** Leading blanks and trailing text are ignored. */
  lemma ParseIntReadsDigitPrefix()
    ensures ParseInt(" 42kg") == Some(42)
  {
    BlankSkipped();
    DigitPrefixOf42kg();
    assert ParseSigned("42kg") == Some(42);
  }

  lemma BlankSkipped()
    ensures SkipWhiteSpace(" 42kg") == "42kg"
  {
    assert IsWhiteSpace(' ') && !IsWhiteSpace('4');
    assert " 42kg"[1..] == "42kg";
  }

  lemma DigitPrefixOf42kg()
    ensures UnsignedPrefix("42kg") == Some(42)
  {
    assert TakeWhile("kg", IsDigit) == "";
    assert TakeWhile("2kg", IsDigit) == "2";
    assert TakeWhile("42kg", IsDigit) == "42";
    assert "42"[..1] == "4";
    assert DecimalValue("42") == 42;
  }

  /** A `0x` prefix switches to base 16. */
  lemma ParseIntReadsHexPrefix()
    ensures ParseInt("0x1A") == Some(26)
  {
    assert SkipWhiteSpace("0x1A") == "0x1A";
    HexPrefixOf1A();
    assert ParseSigned("0x1A") == Some(26);
  }

  lemma HexPrefixOf1A()
    ensures UnsignedPrefix("0x1A") == Some(26)
  {
    assert "0x1A"[2..] == "1A";
    HexDigitsOf1A();
    assert HexValue("1A") == 26 by {
      assert "1A"[..1] == "1";
    }
  }

  lemma HexDigitsOf1A()
    ensures TakeWhile("1A", IsHexDigit) == "1A"
  {
    assert TakeWhile("A", IsHexDigit) == "A";
    assert "1A"[1..] == "A";
  }

  /** Text without any decimal digit reads as `NaN`. */
  lemma ParseIntWithoutDigits(s: string)
    requires forall i :: 0 <= i < |s| ==> !IsDigit(s[i])
    ensures ParseInt(s) == None
  {
    var t := SkipWhiteSpace(s);
    assert forall i :: 0 <= i < |t| ==> t[i] == s[|s| - |t| + i];
    if t != [] {
      if t[0] == '-' || t[0] == '+' {
        UnsignedPrefixWithoutDigits(t[1..]);
      } else {
        UnsignedPrefixWithoutDigits(t);
      }
    }
  }

  /** Without a leading digit there is neither a `0x` prefix nor a digit run. */
  lemma UnsignedPrefixWithoutDigits(u: string)
    requires u == [] || !IsDigit(u[0])
    ensures UnsignedPrefix(u) == None
  {
    if u != [] {
      assert TakeWhile(u, IsDigit) == [];
    }
  }
}
