/**
  The JavaScript string operations the application relies on, over
  `string` (= `seq<char>`): the `\s` character class, `toLowerCase`,
  `includes`, `startsWith`, `trim`, `split(/\s+/)`, `split` on a
  character class, `join`, and the code-point order used for the default
  `Array.prototype.sort` (equal to JavaScript's UTF-16 code-unit order
  for characters below U+10000). The same order stands in for
  `localeCompare`, a locale collation that it does not match.
*/
module JsStrings {

  /** The ECMAScript `\s` class: WhiteSpace and LineTerminator code points. */
  predicate IsWhiteSpace(c: char) {
    c == '\U{0009}' || c == '\U{000A}' || c == '\U{000B}' || c == '\U{000C}' ||
    c == '\U{000D}' || c == '\U{0020}' || c == '\U{00A0}' || c == '\U{1680}' ||
    ('\U{2000}' <= c <= '\U{200A}') || c == '\U{2028}' || c == '\U{2029}' ||
    c == '\U{202F}' || c == '\U{205F}' || c == '\U{3000}' || c == '\U{FEFF}'
  }

  function LowerChar(c: char): (r: char)
    ensures 'A' <= c <= 'Z' ==> 'a' <= r <= 'z'
    ensures !('A' <= c <= 'Z') ==> r == c
  {
    if 'A' <= c <= 'Z' then (c as int + 32) as char else c
  }

  /** `toLowerCase` on the letters A-Z (the only cased letters course data uses). */
  function ToLower(s: string): (r: string)
    ensures |r| == |s|
    ensures forall i :: 0 <= i < |s| ==> r[i] == LowerChar(s[i])
  {
    if s == [] then [] else [LowerChar(s[0])] + ToLower(s[1..])
  }

  lemma {:induction false} ToLowerIdempotent(s: string)
    ensures ToLower(ToLower(s)) == ToLower(s)
  {
    if s != [] {
      ToLowerIdempotent(s[1..]);
      assert ToLower(s)[1..] == ToLower(s[1..]);
    }
  }

  /** `s.startsWith(t)` */
  predicate StartsWith(s: string, t: string) {
    |t| <= |s| && s[..|t|] == t
  }

  /** `s.endsWith(t)` */
  predicate EndsWith(s: string, t: string) {
    |t| <= |s| && s[|s| - |t|..] == t
  }

  /** `t` occurs in `s` starting at index `i`. */
  predicate OccursAt(s: string, t: string, i: int) {
    0 <= i <= |s| - |t| && s[i..i + |t|] == t
  }

  /** `s.includes(t)`: `t` occurs in `s` at some position. */
  function Includes(s: string, t: string): (r: bool)
    ensures r <==> exists i :: OccursAt(s, t, i)
    decreases |s|
  {
    if StartsWith(s, t) then
      assert OccursAt(s, t, 0);
      true
    else if |s| <= |t| then
      NoLongerOccurrence(s, t);
      false
    else
      var r := Includes(s[1..], t);
      IncludesStep(s, t);
      r
  }

  lemma NoLongerOccurrence(s: string, t: string)
    requires |s| <= |t| && !StartsWith(s, t)
    ensures forall i :: !OccursAt(s, t, i)
  {
    forall i | 0 <= i <= |s| - |t|
      ensures !OccursAt(s, t, i)
    {
      assert s[..|t|] == s[i..i + |t|];
    }
  }

  lemma IncludesStep(s: string, t: string)
    requires |s| > |t| && !StartsWith(s, t)
    ensures (exists i :: OccursAt(s, t, i)) <==> (exists i :: OccursAt(s[1..], t, i))
  {
    forall i | OccursAt(s, t, i)
      ensures OccursAt(s[1..], t, i - 1)
    {
      assert i != 0 by {
        assert s[..|t|] == s[0..0 + |t|];
      }
      assert s[1..][i - 1..i - 1 + |t|] == s[i..i + |t|];
    }
    forall i | OccursAt(s[1..], t, i)
      ensures OccursAt(s, t, i + 1)
    {
      assert s[i + 1..i + 1 + |t|] == s[1..][i..i + |t|];
    }
  }

  /** The empty string is included in every string. */
  lemma IncludesEmpty(s: string)
    ensures Includes(s, "")
  {
    assert OccursAt(s, "", 0);
  }

  /** A string is included in itself. */
  lemma IncludesSelf(s: string)
    ensures Includes(s, s)
  {
    assert OccursAt(s, s, 0);
  }

  /** Index of the first character satisfying `p`, or `|s|` when none does. */
  function FirstIndex(s: string, p: char -> bool): (i: nat)
    ensures i <= |s|
    ensures forall k :: 0 <= k < i ==> !p(s[k])
    ensures i < |s| ==> p(s[i])
  {
    if s == [] then 0
    else if p(s[0]) then 0
    else 1 + FirstIndex(s[1..], p)
  }

  /** Length of the longest prefix of `s` made of characters satisfying `p`. */
  function SpanLength(s: string, p: char -> bool): (n: nat)
    ensures n <= |s|
    ensures forall k :: 0 <= k < n ==> p(s[k])
    ensures n < |s| ==> !p(s[n])
  {
    if s == [] || !p(s[0]) then 0 else 1 + SpanLength(s[1..], p)
  }

  /** Every character of `t` is white space. */
  predicate AllWhiteSpace(t: string) {
    forall k :: 0 <= k < |t| ==> IsWhiteSpace(t[k])
  }

  /**
    `s.split(re)` where `re` matches a maximal run of characters
    satisfying `sep`: a leading or trailing run yields an empty first or
    last token and the empty text yields one empty token. Every token
    between the first and the last is non-empty, since a run is maximal.
  */
  function SplitRuns(s: string, sep: char -> bool): (r: seq<string>)
    ensures |r| >= 1
    ensures forall k :: 0 <= k < |r| ==> forall c :: c in r[k] ==> !sep(c)
    ensures r[|r| - 1] == "" <==> s == [] || sep(s[|s| - 1])
    ensures forall k :: 0 < k < |r| - 1 ==> r[k] != ""
    decreases |s|
  {
    var i := FirstIndex(s, sep);
    if i == |s| then [s]
    else
      var k := i + SpanLength(s[i..], sep);
      assert k < |s| ==> s[k..][0] == s[k] && !sep(s[k]);
      assert k < |s| ==> s[k..][|s[k..]| - 1] == s[|s| - 1];
      [s[..i]] + SplitRuns(s[k..], sep)
  }

  /** One step of the split: the first token, then the split after the first run. */
  lemma SplitRunsUnfold(s: string, sep: char -> bool, i: nat, n: nat)
    requires i == FirstIndex(s, sep) < |s| && n == SpanLength(s[i..], sep)
    ensures SplitRuns(s, sep) == [s[..i]] + SplitRuns(s[i + n..], sep)
  {
  }

  /** Text without a separator is one token. */
  lemma SplitRunsNone(s: string, sep: char -> bool)
    requires FirstIndex(s, sep) == |s|
    ensures SplitRuns(s, sep) == [s]
  {
  }

  /** The first token is the text before the first separator. */
  lemma SplitRunsFirst(s: string, sep: char -> bool)
    ensures SplitRuns(s, sep)[0] == s[..FirstIndex(s, sep)]
  {
  }

  /** `s.split(/\s+/)` */
  function SplitWs(s: string): (r: seq<string>)
    ensures |r| >= 1
    ensures forall k :: 0 <= k < |r| ==> forall c :: c in r[k] ==> !IsWhiteSpace(c)
    ensures r[0] == s[..FirstIndex(s, IsWhiteSpace)]
    ensures r[0] == "" <==> s == [] || IsWhiteSpace(s[0])
    ensures r[|r| - 1] == "" <==> s == [] || IsWhiteSpace(s[|s| - 1])
    ensures forall k :: 0 < k < |r| - 1 ==> r[k] != ""
  {
    SplitRunsFirst(s, IsWhiteSpace);
    SplitRuns(s, IsWhiteSpace)
  }

  /**
    An independent reading of the split: a scan that writes one space
    for the first separator of each run and copies every other
    character; `inRun` says the previous character was a separator.
  */
  function CollapseFrom(s: string, sep: char -> bool, inRun: bool): (r: string)
    decreases |s|
  {
    if s == [] then []
    else if sep(s[0]) then (if inRun then [] else [' ']) + CollapseFrom(s[1..], sep, true)
    else [s[0]] + CollapseFrom(s[1..], sep, false)
  }

  /** Every maximal run of white space replaced by a single space. */
  function Collapse(s: string): (r: string)
    ensures s == [] ==> r == []
  {
    CollapseFrom(s, IsWhiteSpace, false)
  }

  /** Text free of separators is copied by the scan. */
  lemma {:induction false} CollapseWordPrefix(s: string, sep: char -> bool, i: nat)
    requires i <= |s| && forall k :: 0 <= k < i ==> !sep(s[k])
    ensures CollapseFrom(s, sep, false) == s[..i] + CollapseFrom(s[i..], sep, false)
    decreases i
  {
    if i > 0 {
      CollapseWordPrefix(s[1..], sep, i - 1);
      assert s[1..][i - 1..] == s[i..];
      assert s[..i] == [s[0]] + s[1..][..i - 1];
    }
  }

  /** Inside a run, separators write nothing. */
  lemma {:induction false} CollapseInRun(s: string, sep: char -> bool, n: nat)
    requires n <= |s| && forall k :: 0 <= k < n ==> sep(s[k])
    ensures CollapseFrom(s, sep, true) == CollapseFrom(s[n..], sep, true)
    decreases n
  {
    if n > 0 {
      CollapseInRun(s[1..], sep, n - 1);
      assert s[1..][n - 1..] == s[n..];
    }
  }

  /** A maximal run of separators at the front collapses to one space. */
  lemma CollapseRun(t: string, sep: char -> bool, n: nat)
    requires 0 < n <= |t| && (forall k :: 0 <= k < n ==> sep(t[k])) && (n == |t| || !sep(t[n]))
    ensures CollapseFrom(t, sep, false) == [' '] + CollapseFrom(t[n..], sep, false)
  {
    CollapseInRun(t[1..], sep, n - 1);
    assert t[1..][n - 1..] == t[n..];
  }

  lemma ConcatAssoc(a: string, b: string, c: string)
    ensures a + b + c == a + (b + c)
  {
  }

  /** Joining a first part onto at least one more. */
  lemma JoinCons(a: string, rest: seq<string>, sep: string)
    requires |rest| >= 1
    ensures Join([a] + rest, sep) == a + sep + Join(rest, sep)
  {
    assert ([a] + rest)[1..] == rest;
  }

  lemma {:induction false} SplitRunsJoin(s: string, sep: char -> bool)
    ensures Join(SplitRuns(s, sep), " ") == CollapseFrom(s, sep, false)
    decreases |s|
  {
    var i := FirstIndex(s, sep);
    CollapseWordPrefix(s, sep, i);
    if i == |s| {
      SplitRunsNone(s, sep);
      assert s[..i] == s && s[i..] == [];
      assert Join([s], " ") == s;
    } else {
      var t := s[i..];
      var n := SpanLength(t, sep);
      assert t[n..] == s[i + n..];
      CollapseRun(t, sep, n);
      var rest := SplitRuns(s[i + n..], sep);
      SplitRunsJoin(s[i + n..], sep);
      JoinCons(s[..i], rest, " ");
      SplitRunsUnfold(s, sep, i, n);
      assert Join([s[..i]] + rest, " ") == s[..i] + " " + CollapseFrom(s[i + n..], sep, false);
      assert CollapseFrom(s, sep, false) == s[..i] + ([' '] + CollapseFrom(s[i + n..], sep, false));
      assert Join(SplitRuns(s, sep), " ") == s[..i] + " " + CollapseFrom(s[i + n..], sep, false);
      ConcatAssoc(s[..i], " ", CollapseFrom(s[i + n..], sep, false));
    }
  }

  /**
    The tokens joined by single spaces are the collapsed text: with the
    tokens free of white space, this determines the split completely.
  */
  lemma SplitWsJoin(s: string)
    ensures Join(SplitWs(s), " ") == Collapse(s)
  {
    SplitRunsJoin(s, IsWhiteSpace);
  }

  /** Splitting a string without white space yields the string itself. */
  lemma SplitWsNoSpace(s: string)
    requires forall k :: 0 <= k < |s| ==> !IsWhiteSpace(s[k])
    ensures SplitWs(s) == [s]
  {
  }

  /** Splitting a string made only of white space yields empty tokens only. */
  lemma SplitWsAllSpace(s: string)
    requires forall c :: c in s ==> IsWhiteSpace(c)
    ensures forall k :: 0 <= k < |SplitWs(s)| ==> SplitWs(s)[k] == ""
  {
    assert forall k :: 0 <= k < |s| ==> IsWhiteSpace(s[k]) by {
      forall k | 0 <= k < |s| ensures IsWhiteSpace(s[k]) {
        assert s[k] in s;
      }
    }
    SplitRunsAllSep(s, IsWhiteSpace);
  }

  /** Text made only of separators splits into empty tokens: one when empty, else two. */
  lemma SplitRunsAllSep(s: string, sep: char -> bool)
    requires forall k :: 0 <= k < |s| ==> sep(s[k])
    ensures SplitRuns(s, sep) == if s == [] then [""] else ["", ""]
  {
    if s != [] {
      SplitRunsOneRun(s, sep, SpanLength(s, sep));
    } else {
      SplitRunsNone(s, sep);
      assert SplitRuns(s, sep) == [""];
    }
  }

  /** A non-empty string that is one run of separators splits into two empty tokens. */
  lemma SplitRunsOneRun(s: string, sep: char -> bool, n: nat)
    requires s != [] && sep(s[0]) && n == SpanLength(s, sep) == |s|
    ensures SplitRuns(s, sep) == ["", ""]
  {
    assert s[0..] == s;
    assert FirstIndex(s, sep) == 0;
    SplitRunsUnfold(s, sep, 0, n);
    SplitRunsNone(s[n..], sep);
    assert s[..0] == "" && s[n..] == "";
    assert SplitRuns(s, sep) == [s[..0]] + [s[n..]];
    assert [s[..0]] + [s[n..]] == ["", ""];
  }

  /** `s.split(re)` where `re` matches exactly one character satisfying `sep`. */
  function SplitOn(s: string, sep: char -> bool): (r: seq<string>)
    ensures |r| >= 1
    ensures forall k :: 0 <= k < |r| ==> forall c :: c in r[k] ==> !sep(c)
    decreases |s|
  {
    var i := FirstIndex(s, sep);
    if i == |s| then [s] else [s[..i]] + SplitOn(s[i + 1..], sep)
  }

  /** A string without separators splits into itself. */
  lemma SplitOnNoSep(s: string, sep: char -> bool)
    requires forall k :: 0 <= k < |s| ==> !sep(s[k])
    ensures SplitOn(s, sep) == [s]
  {
  }

  /** `parts.join(sep)` */
  function Join(parts: seq<string>, sep: string): (r: string)
    ensures |parts| == 1 ==> r == parts[0]
  {
    if parts == [] then ""
    else if |parts| == 1 then parts[0]
    else parts[0] + sep + Join(parts[1..], sep)
  }

  /** Splitting on a single separator character and joining with it is the identity. */
  lemma {:induction false} SplitOnJoin(s: string, c: char)
    ensures Join(SplitOn(s, x => x == c), [c]) == s
    decreases |s|
  {
    var sep := (x: char) => x == c;
    var i := FirstIndex(s, sep);
    if i < |s| {
      SplitOnJoin(s[i + 1..], c);
      var rest := SplitOn(s[i + 1..], sep);
      assert SplitOn(s, sep) == [s[..i]] + rest;
      assert s == s[..i] + [c] + s[i + 1..];
    }
  }

  function TrimStart(s: string): (r: string)
    ensures |r| <= |s| && r == s[|s| - |r|..]
    ensures AllWhiteSpace(s[..|s| - |r|])
    ensures r != [] ==> !IsWhiteSpace(r[0])
  {
    if s != [] && IsWhiteSpace(s[0]) then
      var r := TrimStart(s[1..]);
      assert s[..|s| - |r|] == [s[0]] + s[1..][..|s| - 1 - |r|];
      r
    else s
  }

  function TrimEnd(s: string): (r: string)
    ensures |r| <= |s| && r == s[..|r|]
    ensures AllWhiteSpace(s[|r|..])
    ensures r != [] ==> !IsWhiteSpace(r[|r| - 1])
  {
    if s != [] && IsWhiteSpace(s[|s| - 1]) then
      var r := TrimEnd(s[..|s| - 1]);
      assert s[|r|..] == s[..|s| - 1][|r|..] + [s[|s| - 1]];
      r
    else s
  }

  /**
    `s` is `r` with white space around it: a run of white space, then
    `r`, then another run.
  */
  predicate Framed(s: string, r: string) {
    exists i :: 0 <= i <= |s| - |r| && s[i..i + |r|] == r && AllWhiteSpace(s[..i]) && AllWhiteSpace(s[i + |r|..])
  }

  /**
    `s.trim()`: `s` is the result framed by white space, and the result
    neither starts nor ends with white space, which singles it out.
  */
  function Trim(s: string): (r: string)
    ensures Framed(s, r)
    ensures r != [] ==> !IsWhiteSpace(r[0]) && !IsWhiteSpace(r[|r| - 1])
    ensures Includes(s, r)
  {
    var a := TrimStart(s);
    var r := TrimEnd(a);
    TrimParts(s, |s| - |a|, a, r);
    r
  }

  /** The trimmed text sits at `i`, after and before white space only. */
  lemma TrimParts(s: string, i: nat, a: string, r: string)
    requires i <= |s| && a == s[i..] && AllWhiteSpace(s[..i])
    requires |r| <= |a| && r == a[..|r|] && AllWhiteSpace(a[|r|..])
    ensures Framed(s, r) && Includes(s, r)
  {
    assert s[i..][|r|..] == s[i + |r|..];
    assert s[i..][..|r|] == s[i..i + |r|];
    assert OccursAt(s, r, i);
  }

  /** A string without white space is its own trim. */
  lemma TrimNoSpace(s: string)
    requires forall k :: 0 <= k < |s| ==> !IsWhiteSpace(s[k])
    ensures Trim(s) == s
  {
    assert TrimStart(s) == s;
    assert TrimEnd(s) == s;
  }

  /** Trimming twice is trimming once. */
  lemma TrimIdempotent(s: string)
    ensures Trim(Trim(s)) == Trim(s)
  {
    var r := Trim(s);
    if r != [] {
      assert TrimStart(r) == r;
      assert TrimEnd(r) == r;
    }
  }

  /** Code-point order, which is the code-unit order of the default `sort` below U+10000. */
  predicate LexLess(a: string, b: string) {
    if a == [] then b != []
    else if b == [] then false
    else if a[0] != b[0] then a[0] < b[0]
    else LexLess(a[1..], b[1..])
  }

  lemma {:induction false} LexLessIrreflexive(a: string)
    ensures !LexLess(a, a)
  {
    if a != [] { LexLessIrreflexive(a[1..]); }
  }

  lemma {:induction false} LexLessTotal(a: string, b: string)
    ensures a == b || LexLess(a, b) || LexLess(b, a)
  {
    if a != [] && b != [] && a[0] == b[0] {
      LexLessTotal(a[1..], b[1..]);
      if a[1..] == b[1..] {
        assert a == [a[0]] + a[1..] && b == [b[0]] + b[1..];
      }
    }
  }

  lemma {:induction false} LexLessTransitive(a: string, b: string, c: string)
    ensures LexLess(a, b) && LexLess(b, c) ==> LexLess(a, c)
  {
    if a != [] && b != [] && c != [] && a[0] == b[0] && b[0] == c[0] {
      LexLessTransitive(a[1..], b[1..], c[1..]);
    }
  }

  lemma {:induction false} LexLessAsymmetric(a: string, b: string)
    ensures LexLess(a, b) ==> !LexLess(b, a)
  {
    if a != [] && b != [] && a[0] == b[0] {
      LexLessAsymmetric(a[1..], b[1..]);
    }
  }
}
