/**
  JSON text as the export script embeds it and the import reads it back:
  `JSON.stringify` and `JSON.parse` (RFC 8259, as ECMAScript applies it)
  on null, booleans, integers, strings, arrays and objects.
*/
module JsonText {
  import opened Outcomes
  import opened Numerals

  datatype Json = JNull | JBool(b: bool) | JNum(n: int) | JStr(s: string) | JArr(items: seq<Json>) | JObj(members: seq<Member>)

  datatype Member = Member(key: string, value: Json)

  function HexChar(d: nat): (c: char)
    requires d < 16
    ensures IsHexDigit(c) && HexDigitValue(c) == d
  {
    if d < 10 then DigitChar(d) else ('a' as int + d - 10) as char
  }

  /** How `JSON.stringify` writes one character inside a string literal. */
  function EscapeChar(c: char): (r: string)
    ensures |r| >= 1 && forall i :: 0 <= i < |r| ==> r[i] >= ' '
    ensures r[0] == '\\' || (r == [c] && c != '"')
  {
    if c == '"' then "\\\""
    else if c == '\\' then "\\\\"
    else if c == '\U{8}' then "\\b"
    else if c == '\U{C}' then "\\f"
    else if c == '\n' then "\\n"
    else if c == '\r' then "\\r"
    else if c == '\t' then "\\t"
    else if c < ' ' then "\\u00" + [HexChar(c as int / 16), HexChar(c as int % 16)]
    else [c]
  }

  /** The body of a string literal: no raw control character survives. */
  function Escape(s: string): (r: string)
    ensures forall i :: 0 <= i < |r| ==> r[i] >= ' '
  {
    if s == [] then [] else EscapeChar(s[0]) + Escape(s[1..])
  }

  function Quote(s: string): (r: string)
    ensures |r| >= 2 && r[0] == '"' && forall i :: 0 <= i < |r| ==> r[i] >= ' '
  {
    "\"" + Escape(s) + "\""
  }

  /** `JSON.stringify(v)`: no white space, members in order. */
  function Stringify(v: Json): (r: string)
    ensures |r| >= 1 && r[0] != ' ' && r[0] != ']' && r[0] != '}'
    ensures forall i :: 0 <= i < |r| ==> r[i] >= ' '
    decreases v
  {
    match v
    case JNull => "null"
    case JBool(b) => if b then "true" else "false"
    case JNum(n) =>
      var t := IntToString(n);
      assert forall i :: 0 <= i < |t| ==> t[i] == '-' || IsDigit(t[i]);
      t
    case JStr(s) => Quote(s)
    case JArr(items) => "[" + Elements(items) + "]"
    case JObj(members) => "{" + Members(members) + "}"
  }

  function Elements(items: seq<Json>): (r: string)
    ensures forall i :: 0 <= i < |r| ==> r[i] >= ' '
    ensures items != [] ==> |r| >= 1 && r[0] != ' ' && r[0] != ']'
    decreases items
  {
    if items == [] then ""
    else if |items| == 1 then Stringify(items[0])
    else Stringify(items[0]) + "," + Elements(items[1..])
  }

  function Members(members: seq<Member>): (r: string)
    ensures forall i :: 0 <= i < |r| ==> r[i] >= ' '
    ensures members != [] ==> |r| >= 1 && r[0] == '"'
    decreases members
  {
    if members == [] then ""
    else
      var m := MemberText(members[0]);
      if |members| == 1 then m else m + "," + Members(members[1..])
  }

  function MemberText(m: Member): (r: string)
    ensures forall i :: 0 <= i < |r| ==> r[i] >= ' '
    decreases m
  {
    Quote(m.key) + ":" + Stringify(m.value)
  }

  /** JSON white space. */
  predicate IsJsonWs(c: char) {
    c == ' ' || c == '\t' || c == '\n' || c == '\r'
  }

  function SkipWs(s: string): (r: string)
    ensures |r| <= |s|
    ensures r == [] || !IsJsonWs(r[0])
    ensures s == [] || !IsJsonWs(s[0]) ==> r == s
  {
    if s != [] && IsJsonWs(s[0]) then SkipWs(s[1..]) else s
  }

  /** The four hex digits after `\u`, as a number below 0x10000. */
  function Hex4(s: string): (v: nat)
    requires |s| == 4 && forall i :: 0 <= i < 4 ==> IsHexDigit(s[i])
    ensures v < 0x10000
  {
    HexDigitValue(s[0]) * 4096 + HexDigitValue(s[1]) * 256 + HexDigitValue(s[2]) * 16 + HexDigitValue(s[3])
  }

  /** The character an escape stands for, read after its backslash. */
  function ParseEscape(s: string): (r: Option<(char, string)>)
    ensures r.Some? ==> |r.value.1| < |s|
  {
    if s == [] then None
    else if s[0] == '"' then Some(('"', s[1..]))
    else if s[0] == '\\' then Some(('\\', s[1..]))
    else if s[0] == '/' then Some(('/', s[1..]))
    else if s[0] == 'b' then Some(('\U{8}', s[1..]))
    else if s[0] == 'f' then Some(('\U{C}', s[1..]))
    else if s[0] == 'n' then Some(('\n', s[1..]))
    else if s[0] == 'r' then Some(('\r', s[1..]))
    else if s[0] == 't' then Some(('\t', s[1..]))
    else if s[0] == 'u' && |s| >= 5 && forall i :: 1 <= i < 5 ==> IsHexDigit(s[i]) then
      var v := Hex4(s[1..5]);
      if 0xD800 <= v < 0xE000 then None else Some((v as char, s[5..]))
    else None
  }

  /** The rest of a string literal after its opening quote: its value and the text after the closing quote. */
  function ParseStringBody(s: string): (r: Option<(string, string)>)
    ensures r.Some? ==> |r.value.1| < |s|
  {
    if s == [] then None
    else if s[0] == '"' then Some(([], s[1..]))
    else if s[0] == '\\' then
      match ParseEscape(s[1..])
      case None => None
      case Some((c, t)) =>
        match ParseStringBody(t)
        case None => None
        case Some((body, rest)) => Some(([c] + body, rest))
    else if s[0] < ' ' then None
    else
      match ParseStringBody(s[1..])
      case None => None
      case Some((body, rest)) => Some(([s[0]] + body, rest))
  }

  /** An integer literal; a fraction or an exponent is not read. */
  function ParseNumber(s: string): (r: Option<(int, string)>)
    ensures r.Some? ==> |r.value.1| < |s|
  {
    if s != [] && s[0] == '-' then
      match ParseMagnitude(s[1..])
      case None => None
      case Some((magnitude, rest)) => Some((-(magnitude as int), rest))
    else ParseMagnitude(s)
  }

  /** The digits of an integer literal after its optional minus sign: no leading zero, no fraction, no exponent. */
  function ParseMagnitude(t: string): (r: Option<(nat, string)>)
    ensures r.Some? ==> |r.value.1| < |t|
  {
    var digits := TakeWhile(t, IsDigit);
    var rest := t[|digits|..];
    if digits == [] || (digits[0] == '0' && |digits| > 1) then None
    else if rest != [] && (rest[0] == '.' || rest[0] == 'e' || rest[0] == 'E') then None
    else Some((DecimalValue(digits), rest))
  }

  function ParseValue(s: string): (r: Option<(Json, string)>)
    ensures r.Some? ==> |r.value.1| < |s|
    decreases |s|, 0
  {
    var t := SkipWs(s);
    if t == [] then None
    else if t[0] == 'n' then (if |t| >= 4 && t[..4] == "null" then Some((JNull, t[4..])) else None)
    else if t[0] == 't' then (if |t| >= 4 && t[..4] == "true" then Some((JBool(true), t[4..])) else None)
    else if t[0] == 'f' then (if |t| >= 5 && t[..5] == "false" then Some((JBool(false), t[5..])) else None)
    else if t[0] == '"' then
      match ParseStringBody(t[1..])
      case None => None
      case Some((str, rest)) => Some((JStr(str), rest))
    else if t[0] == '[' then ParseArray(t[1..])
    else if t[0] == '{' then ParseObject(t[1..])
    else
      match ParseNumber(t)
      case None => None
      case Some((n, rest)) => Some((JNum(n), rest))
  }

  /** The rest of an array after `[`. */
  function ParseArray(s: string): (r: Option<(Json, string)>)
    ensures r.Some? ==> |r.value.1| < |s|
    decreases |s|, 2
  {
    var t := SkipWs(s);
    if t != [] && t[0] == ']' then Some((JArr([]), t[1..]))
    else
      match ParseElements(t)
      case None => None
      case Some((items, rest)) => Some((JArr(items), rest))
  }

  /** One or more values separated by commas, then `]`. */
  function ParseElements(s: string): (r: Option<(seq<Json>, string)>)
    ensures r.Some? ==> |r.value.1| < |s|
    decreases |s|, 1
  {
    match ParseValue(s)
    case None => None
    case Some((v, rest)) =>
      var t := SkipWs(rest);
      if t == [] then None
      else if t[0] == ']' then Some(([v], t[1..]))
      else if t[0] == ',' then
        match ParseElements(t[1..])
        case None => None
        case Some((vs, rest')) => Some(([v] + vs, rest'))
      else None
  }

  /** The rest of an object after `{`. */
  function ParseObject(s: string): (r: Option<(Json, string)>)
    ensures r.Some? ==> |r.value.1| < |s|
    decreases |s|, 2
  {
    var t := SkipWs(s);
    if t != [] && t[0] == '}' then Some((JObj([]), t[1..]))
    else
      match ParseMembers(t)
      case None => None
      case Some((ms, rest)) => Some((JObj(ms), rest))
  }

  /** One `"key": value` pair. */
  function ParseMember(s: string): (r: Option<(Member, string)>)
    ensures r.Some? ==> |r.value.1| < |s|
    decreases |s|, 0
  {
    var t := SkipWs(s);
    if t == [] || t[0] != '"' then None
    else
      match ParseStringBody(t[1..])
      case None => None
      case Some((key, r1)) =>
        var u := SkipWs(r1);
        if u == [] || u[0] != ':' then None
        else
          match ParseValue(u[1..])
          case None => None
          case Some((v, r2)) => Some((Member(key, v), r2))
  }

  /** One or more pairs separated by commas, then `}`. */
  function ParseMembers(s: string): (r: Option<(seq<Member>, string)>)
    ensures r.Some? ==> |r.value.1| < |s|
    decreases |s|, 1
  {
    match ParseMember(s)
    case None => None
    case Some((m, rest)) =>
      var w := SkipWs(rest);
      if w == [] then None
      else if w[0] == '}' then Some(([m], w[1..]))
      else if w[0] == ',' then
        match ParseMembers(w[1..])
        case None => None
        case Some((ms, rest')) => Some(([m] + ms, rest'))
      else None
  }

  /** `JSON.parse(text)`: one value, optionally surrounded by white space; `None` is a `SyntaxError`. */
  function Parse(text: string): (r: Option<Json>)
  {
    match ParseValue(text)
    case None => None
    case Some((v, rest)) => if SkipWs(rest) == [] then Some(v) else None
  }

  // Round trip

  /** What may follow a value inside the text `Stringify` writes. */
  predicate Delimited(rest: string) {
    rest == [] || rest[0] == ',' || rest[0] == ']' || rest[0] == '}'
  }

  lemma EscapeCharRoundTrip(c: char, t: string)
    ensures ParseStringBody(EscapeChar(c) + t) ==
      match ParseStringBody(t)
      case None => None
      case Some((body, rest)) => Some(([c] + body, rest))
  {
    if c < ' ' && c != '\U{8}' && c != '\U{C}' && c != '\n' && c != '\r' && c != '\t' {
      UnicodeEscapeRoundTrip(c, t);
    } else if c == '"' || c == '\\' || c < ' ' {
      ShortEscapeRoundTrip(c, t);
    } else {
      assert EscapeChar(c) == [c];
      assert ([c] + t)[1..] == t;
    }
  }

  /** A two-character escape is read back as its character. */
  lemma ShortEscapeRoundTrip(c: char, t: string)
    requires c == '"' || c == '\\' || c == '\U{8}' || c == '\U{C}' || c == '\n' || c == '\r' || c == '\t'
    ensures ParseStringBody(EscapeChar(c) + t) ==
      match ParseStringBody(t)
      case None => None
      case Some((body, rest)) => Some(([c] + body, rest))
  {
    var e := EscapeChar(c);
    assert |e| == 2 && e[0] == '\\';
    var s := e + t;
    assert s[1..] == [e[1]] + t;
    assert ([e[1]] + t)[1..] == t;
    assert ParseEscape(s[1..]) == Some((c, t));
  }

  /** A `\u00XX` escape of a control character is read back as that character. */
  lemma UnicodeEscapeRoundTrip(c: char, t: string)
    requires c < ' ' && c != '\U{8}' && c != '\U{C}' && c != '\n' && c != '\r' && c != '\t'
    ensures ParseStringBody(EscapeChar(c) + t) ==
      match ParseStringBody(t)
      case None => None
      case Some((body, rest)) => Some(([c] + body, rest))
  {
    var hi, lo := HexChar(c as int / 16), HexChar(c as int % 16);
    var s := EscapeChar(c) + t;
    assert s == ['\\', 'u', '0', '0', hi, lo] + t;
    var u := s[1..];
    assert u == ['u', '0', '0', hi, lo] + t;
    var d := u[1..5];
    assert d == ['0', '0', hi, lo];
    assert Hex4(d) == c as int;
    assert u[5..] == t;
    assert ParseEscape(u) == Some((c, t));
  }

  lemma {:induction false} StringRoundTrip(s: string, rest: string)
    ensures ParseStringBody(Escape(s) + "\"" + rest) == Some((s, rest))
  {
    if s == [] {
      assert Escape(s) + "\"" + rest == "\"" + rest;
    } else {
      var tail := Escape(s[1..]) + "\"" + rest;
      StringRoundTrip(s[1..], rest);
      EscapeFront(s, rest);
      EscapeCharRoundTrip(s[0], tail);
      assert [s[0]] + s[1..] == s;
    }
  }

  /** The escaped text of a non-empty string starts with its first character's escape. */
  lemma EscapeFront(s: string, rest: string)
    requires s != []
    ensures Escape(s) + "\"" + rest == EscapeChar(s[0]) + (Escape(s[1..]) + "\"" + rest)
  {
    var a, b, q := EscapeChar(s[0]), Escape(s[1..]), "\"";
    assert Escape(s) == a + b;
    Assoc4(a, b, q, rest);
  }

  lemma Assoc4(a: string, b: string, c: string, d: string)
    ensures a + b + c + d == a + (b + c + d)
  {
    var l, r := a + b + c + d, a + (b + c + d);
    assert |l| == |r|;
    forall i | 0 <= i < |l| ensures l[i] == r[i] {
    }
  }

  lemma QuoteRoundTrip(s: string, rest: string)
    ensures ParseValue(Quote(s) + rest) == Some((JStr(s), rest))
  {
    var t := Quote(s) + rest;
    assert t[1..] == Escape(s) + "\"" + rest;
    StringRoundTrip(s, rest);
  }

  lemma TakeWhileStops(a: string, b: string, p: char -> bool)
    requires forall i :: 0 <= i < |a| ==> p(a[i])
    requires b == [] || !p(b[0])
    ensures TakeWhile(a + b, p) == a
  {
    if a != [] {
      assert (a + b)[1..] == a[1..] + b;
      TakeWhileStops(a[1..], b, p);
    }
  }

  lemma NumberLiteralRoundTrip(n: int, rest: string)
    requires Delimited(rest)
    ensures ParseNumber(IntToString(n) + rest) == Some((n, rest))
  {
    if n < 0 {
      NegativeLiteral(-n, rest);
    } else {
      NonNegativeLiteral(n, rest);
    }
  }

  lemma NegativeLiteral(m: nat, rest: string)
    requires m > 0 && Delimited(rest)
    ensures ParseNumber(IntToString(-(m as int)) + rest) == Some((-(m as int), rest))
  {
    var minus, digits := "-", NatToString(m);
    assert IntToString(-(m as int)) == minus + digits;
    var s := minus + digits + rest;
    assert s[0] == '-' && s[1..] == digits + rest;
    MagnitudeRoundTrip(m, rest);
  }

  lemma NonNegativeLiteral(m: nat, rest: string)
    requires Delimited(rest)
    ensures ParseNumber(IntToString(m) + rest) == Some((m, rest))
  {
    MagnitudeRoundTrip(m, rest);
    assert NatToString(m)[0] != '-';
  }

  /** The digits `NatToString` writes are read back up to the delimiter. */
  lemma MagnitudeRoundTrip(m: nat, rest: string)
    requires Delimited(rest)
    ensures ParseMagnitude(NatToString(m) + rest) == Some((m, rest))
  {
    var digits := NatToString(m);
    TakeWhileStops(digits, rest, IsDigit);
    assert (digits + rest)[|digits|..] == rest;
    DecimalValueOfNatToString(m);
  }

  lemma NumberRoundTrip(n: int, rest: string)
    requires Delimited(rest)
    ensures ParseValue(IntToString(n) + rest) == Some((JNum(n), rest))
  {
    var s := IntToString(n) + rest;
    assert s[0] == '-' || IsDigit(s[0]);
    NumberLiteralRoundTrip(n, rest);
  }

  lemma {:induction false} ValueRoundTrip(v: Json, rest: string)
    requires Delimited(rest)
    ensures ParseValue(Stringify(v) + rest) == Some((v, rest))
    decreases v, 1, 0
  {
    match v
    case JNull => LiteralRoundTrip(v, rest);
    case JBool(_) => LiteralRoundTrip(v, rest);
    case JNum(n) => NumberRoundTrip(n, rest);
    case JStr(str) => QuoteRoundTrip(str, rest);
    case JArr(items) => ArrayRoundTrip(items, rest);
    case JObj(members) => ObjectRoundTrip(members, rest);
  }

  lemma LiteralRoundTrip(v: Json, rest: string)
    requires v.JNull? || v.JBool?
    ensures ParseValue(Stringify(v) + rest) == Some((v, rest))
  {
    var s := Stringify(v) + rest;
    if v.JNull? {
      assert s[..4] == "null";
    } else if v.b {
      assert s[..4] == "true";
    } else {
      assert s[..5] == "false";
    }
  }

  lemma {:induction false} ArrayRoundTrip(items: seq<Json>, rest: string)
    requires Delimited(rest)
    ensures ParseValue(Stringify(JArr(items)) + rest) == Some((JArr(items), rest))
    decreases items, 2, 1
  {
    var body := Elements(items) + "]" + rest;
    BracketedText(items, rest);
    OpeningBracket(body);
    ArrayBodyRoundTrip(items, rest);
  }

  /** After `[`, the elements and the closing bracket are read back. */
  lemma {:induction false} ArrayBodyRoundTrip(items: seq<Json>, rest: string)
    ensures ParseArray(Elements(items) + "]" + rest) == Some((JArr(items), rest))
    decreases items, 2, 0
  {
    var body := Elements(items) + "]" + rest;
    if items == [] {
      assert body == "]" + rest;
      assert body[1..] == rest;
    } else {
      ElementsRoundTrip(items, rest);
      ArrayBody(body);
    }
  }

  lemma {:induction false} ObjectRoundTrip(members: seq<Member>, rest: string)
    requires Delimited(rest)
    ensures ParseValue(Stringify(JObj(members)) + rest) == Some((JObj(members), rest))
    decreases members, 2, 1
  {
    var body := Members(members) + "}" + rest;
    BracedText(members, rest);
    OpeningBrace(body);
    ObjectBodyRoundTrip(members, rest);
  }

  /** After `{`, the pairs and the closing brace are read back. */
  lemma {:induction false} ObjectBodyRoundTrip(members: seq<Member>, rest: string)
    ensures ParseObject(Members(members) + "}" + rest) == Some((JObj(members), rest))
    decreases members, 2, 0
  {
    var body := Members(members) + "}" + rest;
    if members == [] {
      assert body == "}" + rest;
      assert body[1..] == rest;
    } else {
      MembersRoundTrip(members, rest);
      ObjectBody(body);
    }
  }

  lemma BracketedText(items: seq<Json>, rest: string)
    ensures Stringify(JArr(items)) + rest == "[" + (Elements(items) + "]" + rest)
  {
  }

  lemma BracedText(members: seq<Member>, rest: string)
    ensures Stringify(JObj(members)) + rest == "{" + (Members(members) + "}" + rest)
  {
  }

  lemma OpeningBracket(body: string)
    ensures ParseValue("[" + body) == ParseArray(body)
  {
    assert ("[" + body)[1..] == body;
  }

  lemma ArrayBody(t: string)
    requires t != [] && t[0] != ' ' && t[0] >= ' ' && t[0] != ']'
    ensures ParseArray(t) ==
      match ParseElements(t)
      case None => None
      case Some((items, rest)) => Some((JArr(items), rest))
  {
  }

  lemma OpeningBrace(body: string)
    ensures ParseValue("{" + body) == ParseObject(body)
  {
    assert ("{" + body)[1..] == body;
  }

  lemma ObjectBody(t: string)
    requires t != [] && t[0] == '"'
    ensures ParseObject(t) ==
      match ParseMembers(t)
      case None => None
      case Some((ms, rest)) => Some((JObj(ms), rest))
  {
  }

  lemma {:induction false} ElementsRoundTrip(items: seq<Json>, rest: string)
    requires items != []
    ensures ParseElements(Elements(items) + "]" + rest) == Some((items, rest))
    decreases items, 1, 1
  {
    if |items| == 1 {
      LastElementRoundTrip(items, rest);
    } else {
      NextElementRoundTrip(items, rest);
    }
  }

  lemma {:induction false} LastElementRoundTrip(items: seq<Json>, rest: string)
    requires |items| == 1
    ensures ParseElements(Elements(items) + "]" + rest) == Some((items, rest))
    decreases items, 1, 0
  {
    ValueRoundTrip(items[0], "]" + rest);
    assert Elements(items) + "]" + rest == Stringify(items[0]) + ("]" + rest);
    assert ("]" + rest)[1..] == rest;
    assert [items[0]] == items;
  }

  lemma {:induction false} NextElementRoundTrip(items: seq<Json>, rest: string)
    requires |items| > 1
    ensures ParseElements(Elements(items) + "]" + rest) == Some((items, rest))
    decreases items, 1, 0
  {
    var tail := "," + (Elements(items[1..]) + "]" + rest);
    ElementsText(items, rest);
    ValueRoundTrip(items[0], tail);
    ElementsRoundTrip(items[1..], rest);
    ElementsStep(Elements(items) + "]" + rest, items[0], tail);
    assert [items[0]] + items[1..] == items;
  }

  lemma ElementsText(items: seq<Json>, rest: string)
    requires |items| > 1
    ensures Elements(items) + "]" + rest == Stringify(items[0]) + ("," + (Elements(items[1..]) + "]" + rest))
    ensures ("," + (Elements(items[1..]) + "]" + rest))[1..] == Elements(items[1..]) + "]" + rest
  {
    var a, b := Stringify(items[0]), Elements(items[1..]);
    assert Elements(items) == a + "," + b;
    Regroup(a, ",", b, "]", rest);
    var x := Elements(items[1..]) + "]" + rest;
    assert ("," + x)[1..] == x;
  }

  lemma Regroup(a: string, b: string, c: string, d: string, e: string)
    ensures a + b + c + d + e == a + (b + (c + d + e))
  {
    var l, r := a + b + c + d + e, a + (b + (c + d + e));
    assert |l| == |r|;
    forall i | 0 <= i < |l| ensures l[i] == r[i] {
    }
  }

  /** After a value and a comma, the remaining elements are read. */
  lemma ElementsStep(s: string, v: Json, tail: string)
    requires ParseValue(s) == Some((v, tail))
    requires tail != [] && tail[0] == ','
    ensures ParseElements(s) ==
      match ParseElements(tail[1..])
      case None => None
      case Some((vs, r)) => Some(([v] + vs, r))
  {
    assert SkipWs(tail) == tail;
  }

  lemma {:induction false} MembersRoundTrip(members: seq<Member>, rest: string)
    requires members != []
    ensures ParseMembers(Members(members) + "}" + rest) == Some((members, rest))
    decreases members, 1, 1
  {
    if |members| == 1 {
      LastMemberRoundTrip(members, rest);
    } else {
      NextMemberRoundTrip(members, rest);
    }
  }

  lemma {:induction false} LastMemberRoundTrip(members: seq<Member>, rest: string)
    requires |members| == 1
    ensures ParseMembers(Members(members) + "}" + rest) == Some((members, rest))
    decreases members, 1, 0
  {
    var m := members[0];
    var after := "}" + rest;
    assert Members(members) + "}" + rest == MemberText(m) + after;
    MemberRoundTrip(m, after);
    assert SkipWs(after) == after;
    assert after[1..] == rest;
    assert [m] == members;
  }

  lemma {:induction false} NextMemberRoundTrip(members: seq<Member>, rest: string)
    requires |members| > 1
    ensures ParseMembers(Members(members) + "}" + rest) == Some((members, rest))
    decreases members, 1, 0
  {
    var m := members[0];
    var after := "," + (Members(members[1..]) + "}" + rest);
    MembersText(members, rest);
    MemberRoundTrip(m, after);
    MembersRoundTrip(members[1..], rest);
    MembersStep(Members(members) + "}" + rest, m, after);
    assert [m] + members[1..] == members;
  }

  lemma MembersText(members: seq<Member>, rest: string)
    requires |members| > 1
    ensures Members(members) + "}" + rest == MemberText(members[0]) + ("," + (Members(members[1..]) + "}" + rest))
    ensures ("," + (Members(members[1..]) + "}" + rest))[1..] == Members(members[1..]) + "}" + rest
  {
    var a, b := MemberText(members[0]), Members(members[1..]);
    assert Members(members) == a + "," + b;
    Regroup(a, ",", b, "}", rest);
    var x := Members(members[1..]) + "}" + rest;
    assert ("," + x)[1..] == x;
  }

  /** After a pair and a comma, the remaining pairs are read. */
  lemma MembersStep(s: string, m: Member, tail: string)
    requires ParseMember(s) == Some((m, tail))
    requires tail != [] && tail[0] == ','
    ensures ParseMembers(s) ==
      match ParseMembers(tail[1..])
      case None => None
      case Some((ms, r)) => Some(([m] + ms, r))
  {
    assert SkipWs(tail) == tail;
  }

  lemma MemberRoundTrip(m: Member, after: string)
    requires Delimited(after)
    ensures ParseMember(MemberText(m) + after) == Some((m, after))
    decreases m, 0, 0
  {
    var x := Stringify(m.value) + after;
    assert MemberText(m) + after == Quote(m.key) + ":" + x;
    KeyThenColon(m.key, x);
    ValueRoundTrip(m.value, after);
  }

  /** A key and its colon are read, then the value. */
  lemma KeyThenColon(key: string, x: string)
    ensures ParseMember(Quote(key) + ":" + x) ==
      match ParseValue(x)
      case None => None
      case Some((v, r2)) => Some((Member(key, v), r2))
  {
    var s := Quote(key) + ":" + x;
    var r1 := ":" + x;
    assert s[1..] == Escape(key) + "\"" + r1;
    StringRoundTrip(key, r1);
    assert SkipWs(r1) == r1;
    assert r1[1..] == x;
  }

  /** `JSON.parse(JSON.stringify(v))` gives `v` back. */
  lemma ParseStringify(v: Json)
    ensures Parse(Stringify(v)) == Some(v)
  {
    ValueRoundTrip(v, "");
    assert Stringify(v) + "" == Stringify(v);
  }

  /** The text `Stringify` writes has no line feed. */
  lemma NoLineFeed(v: Json)
    ensures '\n' !in Stringify(v)
  {
  }
}
