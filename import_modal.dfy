/**
  The import dialog of the newer page. The user pastes the form-filling
  script an earlier export produced; the dialog cuts the embedded course
  list out of it and hands that text to the selection panel, which parses
  it and applies it.
*/
module ImportDialog {
  import opened Outcomes
  import opened Courses
  import opened Seqs
  import opened JsStrings
  import opened JsonText
  import opened SelectedCourses

  /** The text the list is looked for after, up to and including its `[`. */
  const Marker: string := "exportClass = ["

  /** `pat` occurs at `i` and nowhere before. */
  predicate FirstAt(t: string, pat: string, i: int) {
    OccursAt(t, pat, i) && forall j :: 0 <= j < i ==> !OccursAt(t, pat, j)
  }

  /** The first index at or after `from` where `pat` occurs. */
  function FindFrom(t: string, pat: string, from: nat): (r: Option<nat>)
    ensures r.Some? ==> from <= r.value && OccursAt(t, pat, r.value)
    ensures r.Some? ==> forall k :: from <= k < r.value ==> !OccursAt(t, pat, k)
    ensures r.None? ==> forall k :: from <= k ==> !OccursAt(t, pat, k)
    decreases |t| - from
  {
    if from + |pat| > |t| then None
    else if OccursAt(t, pat, from) then Some(from)
    else FindFrom(t, pat, from + 1)
  }

  /** An occurrence at `p` with none between `from` and `p` is what `FindFrom` finds. */
  lemma FindFromIs(t: string, pat: string, from: nat, p: nat)
    requires from <= p && OccursAt(t, pat, p)
    requires forall k :: from <= k < p ==> !OccursAt(t, pat, k)
    ensures FindFrom(t, pat, from) == Some(p)
  {
  }

  /**
    The text from the `[` of the first `exportClass = [` up to and
    including the `]` of the first `close` that begins after that `[`.
    With `close` = `];` this is group 1 of `/exportClass = (\[.*?]);/s`:
    the lazy `.*?` (which the `s` flag lets cross lines) stops at the
    first `];`, and a match starting at a later marker could only end at
    a later `];`, so when the first marker has no `];` after it there is
    no match at all.
  */
  function CaptureUntil(t: string, close: string): (r: Option<string>)
    requires |close| >= 2 && close[0] == ']'
    ensures r.None? <==> !exists i, k :: OccursAt(t, Marker, i) && i + 15 <= k && OccursAt(t, close, k)
  {
    var i := FindFrom(t, Marker, 0);
    if i.None? then None
    else
      var k := FindFrom(t, close, i.value + 15);
      if k.None? then
        NoCloseAfterFirstMarker(t, close, i.value);
        None
      else
        Some(t[i.value + 14..k.value + 1])
  }

  /**
    A capture runs from a `[` to a `]`, contains no `close`, and sits
    between the first marker and a `close` in the text.
  */
  lemma CaptureUntilFacts(t: string, close: string)
    requires |close| >= 2 && close[0] == ']'
    ensures var r := CaptureUntil(t, close);
      r.Some? ==>
        |r.value| >= 2 && r.value[0] == '[' && r.value[|r.value| - 1] == ']' &&
        !Includes(r.value, close) &&
        exists i :: FirstAt(t, Marker, i) && OccursAt(t, "exportClass = " + r.value + close[1..], i)
  {
    var r := CaptureUntil(t, close);
    if r.Some? {
      var i := FindFrom(t, Marker, 0).value;
      var k := FindFrom(t, close, i + 15).value;
      var cap := t[i + 14..k + 1];
      assert r.value == cap;
      CaptureShape(t, close, i, k);
      CaptureHasNoClose(t, close, i, k, cap);
      assert !Includes(cap, close);
      CaptureInText(t, close, i, k);
      assert FirstAt(t, Marker, i);
    }
  }

  lemma NoCloseAfterFirstMarker(t: string, close: string, i: nat)
    requires FindFrom(t, Marker, 0) == Some(i) && FindFrom(t, close, i + 15).None?
    ensures !exists i', k :: OccursAt(t, Marker, i') && i' + 15 <= k && OccursAt(t, close, k)
  {
    forall i', k | OccursAt(t, Marker, i') && i' + 15 <= k ensures !OccursAt(t, close, k) {
      assert i <= i';
    }
  }

  lemma CaptureShape(t: string, close: string, i: nat, k: nat)
    requires |close| >= 2 && close[0] == ']'
    requires OccursAt(t, Marker, i) && i + 15 <= k && OccursAt(t, close, k)
    ensures var cap := t[i + 14..k + 1];
      |cap| >= 2 && cap[0] == '[' && cap[|cap| - 1] == ']'
  {
    assert t[i..i + 15][14] == Marker[14];
    assert t[k..k + |close|][0] == close[0];
  }

  lemma CaptureHasNoClose(t: string, close: string, i: nat, k: nat, cap: string)
    requires |close| >= 2 && close[0] == ']'
    requires OccursAt(t, Marker, i) && i + 15 <= k && OccursAt(t, close, k)
    requires forall k' :: i + 15 <= k' < k ==> !OccursAt(t, close, k')
    requires cap == t[i + 14..k + 1]
    ensures forall m :: !OccursAt(cap, close, m)
  {
    forall m | OccursAt(cap, close, m) ensures false {
      CloseInCapture(t, close, i, k, cap, m);
    }
  }

  /** A `close` inside the capture would be one in the text before the capture's end. */
  lemma CloseInCapture(t: string, close: string, i: nat, k: nat, cap: string, m: int)
    requires |close| >= 2 && close[0] == ']'
    requires OccursAt(t, Marker, i) && i + 15 <= k && OccursAt(t, close, k)
    requires cap == t[i + 14..k + 1] && OccursAt(cap, close, m)
    ensures i + 15 <= i + 14 + m < k && OccursAt(t, close, i + 14 + m)
  {
    assert t[i..i + 15][14] == Marker[14];
    assert cap[m..m + |close|][0] == close[0];
    assert |cap| == k + 1 - (i + 14);
    forall x | 0 <= x < |close| ensures t[i + 14 + m + x] == close[x] {
      assert cap[m + x] == t[i + 14 + m + x];
      assert cap[m..m + |close|][x] == cap[m + x];
    }
    assert t[i + 14 + m..i + 14 + m + |close|] == close;
  }

  lemma CaptureInText(t: string, close: string, i: nat, k: nat)
    requires |close| >= 2
    requires OccursAt(t, Marker, i) && i + 15 <= k && OccursAt(t, close, k)
    ensures OccursAt(t, "exportClass = " + t[i + 14..k + 1] + close[1..], i)
  {
    assert t[i..i + 14] == t[i..i + 15][..14] == "exportClass = ";
    assert t[k + 1..k + |close|] == t[k..k + |close|][1..] == close[1..];
    assert t[i..k + |close|] == t[i..i + 14] + t[i + 14..k + 1] + t[k + 1..k + |close|];
  }

  /** Group 1 of the regular expression in `handleImport`. */
  function CaptureAsWritten(t: string): (r: Option<string>) {
    CaptureUntil(t, "];")
  }

  /**
    The list as the export script embeds it: it ends at the first `]`
    followed by `;` and a line feed. `JSON.stringify` writes no line feed,
    so no text inside the list can end the capture early.
  */
  function CaptureExport(t: string): (r: Option<string>) {
    CaptureUntil(t, "];\n")
  }

  /** The corrected capture finds any line-feed-free list framed the way the export script frames it. */
  lemma CaptureFramed(pre: string, body: string, post: string)
    requires 'x' !in pre
    requires |body| >= 2 && body[0] == '[' && body[|body| - 1] == ']' && '\n' !in body
    requires StartsWith(post, ";\n")
    ensures CaptureExport(pre + "exportClass = " + body + post) == Some(body)
  {
    var head := pre + "exportClass = ";
    var t := head + body + post;
    var p, q := |pre|, |head| + |body| - 1;
    MarkerFramed(pre, body, post, t);
    CloseFramed(pre, body, post, t);
    assert t[p + 14..q + 1] == body;
  }

  /** In a framed text the first marker is the one after the preamble. */
  lemma MarkerFramed(pre: string, body: string, post: string, t: string)
    requires 'x' !in pre && |body| >= 1 && body[0] == '['
    requires t == pre + "exportClass = " + body + post
    ensures FindFrom(t, Marker, 0) == Some(|pre|)
  {
    var p := |pre|;
    assert t[p..p + 15] == Marker;
    forall j | 0 <= j < p ensures !OccursAt(t, Marker, j) {
      assert j + 1 < p ==> t[j + 1] == pre[j + 1];
      assert Marker[1] == 'x';
    }
    FindFromIs(t, Marker, 0, p);
  }

  /** In a framed text the first close after the marker is the one ending the list. */
  lemma CloseFramed(pre: string, body: string, post: string, t: string)
    requires |body| >= 2 && body[|body| - 1] == ']' && '\n' !in body
    requires StartsWith(post, ";\n")
    requires t == pre + "exportClass = " + body + post
    ensures FindFrom(t, "];\n", |pre| + 15) == Some(|pre| + 14 + |body| - 1)
  {
    var close := "];\n";
    var h := |pre| + 14;
    var q := h + |body| - 1;
    assert t[q..q + 3] == close by {
      assert t[q] == body[|body| - 1];
      assert t[q + 1] == post[0] && t[q + 2] == post[1];
    }
    forall j | |pre| + 15 <= j < q ensures !OccursAt(t, close, j) {
      if j + 2 < h + |body| {
        assert t[j + 2] == body[j + 2 - h];
      } else {
        assert t[j + 2] == post[0] == ';';
      }
    }
    FindFromIs(t, close, |pre| + 15, q);
  }

  /** The export script's preamble has no `x`, so the marker first occurs where the list is assigned. */
  lemma PreambleHasNoX()
    ensures 'x' !in ScriptPreamble
  {
    var a, b, c := "const frame = ", "document.getEle", "mentById('main');\n";
    var d, e, f := "const doc = ", "frame.contentDoc", "ument || frame.";
    var g, h := "contentWindow.", "document;\nconst ";
    assert 'x' !in a && 'x' !in b && 'x' !in c && 'x' !in d;
    assert 'x' !in e && 'x' !in f && 'x' !in g && 'x' !in h;
    NoXInConcat([a, b, c, d, e, f, g, h]);
    assert ScriptPreamble == a + b + c + d + e + f + g + h;
  }

  /** No piece holds an `x`, so their concatenation holds none. */
  lemma {:induction false} NoXInConcat(pieces: seq<string>)
    requires forall k :: 0 <= k < |pieces| ==> 'x' !in pieces[k]
    ensures 'x' !in Concat(pieces)
  {
    if pieces != [] {
      NoXInConcat(pieces[..|pieces| - 1]);
    }
  }

  /** The pieces joined left to right. */
  function Concat(pieces: seq<string>): string {
    if pieces == [] then [] else Concat(pieces[..|pieces| - 1]) + pieces[|pieces| - 1]
  }

  /** The corrected capture of an export script is exactly the list it embeds. */
  lemma ExportScriptCaptured(entries: seq<ExportEntry>)
    ensures CaptureExport(ExportScript(entries)) == Some(ExportText(entries))
  {
    var body := ExportText(entries);
    NoLineFeed(JArr(EntriesJson(entries)));
    PreambleHasNoX();
    assert StartsWith(ScriptTail, ";\n") by {
      assert ScriptTail[..2] == ";\n";
    }
    assert ExportScript(entries) == ScriptPreamble + "exportClass = " + body + ScriptTail;
    CaptureFramed(ScriptPreamble, body, ScriptTail);
  }

  /**
    Exporting, pasting the whole script into the dialog and importing
    selects the catalogue courses whose numbers were exported, in
    catalogue order, each with its exported weight.
  */
  lemma ScriptRoundTrip(courses: seq<Course>, added: seq<string>, selected: seq<Course>, weights: map<string, Weight>)
    requires WeightsInRange(weights)
    requires forall n :: n in added ==> n in Numbers(selected)
    ensures var entries := ExportData(added, selected, weights).value;
      var cap := CaptureExport(ExportScript(entries));
      cap.Some? &&
      (var plan := ImportPlan(courses, cap.value);
       plan.Value? &&
       StepCourses(plan.value) == Filter(courses, NumberIn(added)) &&
       forall i :: 0 <= i < |plan.value| ==>
         ClampWeight(plan.value[i].weightText) == Some(ExportValue(weights, plan.value[i].course.number)))
  {
    ExportScriptCaptured(ExportData(added, selected, weights).value);
    ExportThenImport(courses, added, selected, weights);
  }

  // What the regular expression as written does to a name containing `];`

  /** `JSON.stringify` escapes a string character by character. */
  lemma {:induction false} EscapeAppend(a: string, b: string)
    ensures Escape(a + b) == Escape(a) + Escape(b)
  {
    if a == [] {
      assert a + b == b;
    } else {
      assert (a + b)[0] == a[0];
      assert (a + b)[1..] == a[1..] + b;
      EscapeAppend(a[1..], b);
      assert Escape(a + b) == EscapeChar(a[0]) + (Escape(a[1..]) + Escape(b));
    }
  }

  /** `]` and `;` are written as they are. */
  lemma EscapeClose()
    ensures Escape("];") == "];"
  {
    assert "];"[1..] == ";";
    assert ";"[1..] == "";
  }

  /** An occurrence in `x` is one in `x + y`. */
  lemma OccursLeft(x: string, y: string, pat: string, i: int)
    requires OccursAt(x, pat, i)
    ensures OccursAt(x + y, pat, i)
  {
    assert (x + y)[i..i + |pat|] == x[i..i + |pat|];
  }

  /** An occurrence in `y` is one in `x + y`, shifted by `|x|`. */
  lemma OccursRight(x: string, y: string, pat: string, i: int)
    requires OccursAt(y, pat, i)
    ensures OccursAt(x + y, pat, |x| + i)
  {
    assert (x + y)[|x| + i..|x| + i + |pat|] == y[i..i + |pat|];
  }

  /** A string is what comes before an occurrence, the occurrence and what comes after. */
  lemma SplitAround(s: string, pat: string, m: int)
    requires OccursAt(s, pat, m)
    ensures s == s[..m] + (pat + s[m + |pat|..])
  {
    assert s[m..] == s[m..m + |pat|] + s[m + |pat|..];
    assert s == s[..m] + s[m..];
  }

  /** A text that escapes to itself survives escaping the string around it. */
  lemma EscapedKeeps(s: string, pat: string, m: int) returns (j: int)
    requires OccursAt(s, pat, m) && Escape(pat) == pat
    ensures OccursAt(Escape(s), pat, j)
  {
    var a, b := s[..m], s[m + |pat|..];
    SplitAround(s, pat, m);
    EscapeAppend(a, pat + b);
    EscapeAppend(pat, b);
    assert OccursAt(pat, pat, 0);
    OccursLeft(pat, Escape(b), pat, 0);
    OccursRight(Escape(a), pat + Escape(b), pat, 0);
    j := |Escape(a)|;
  }

  /** A `];` in a string survives into its literal. */
  lemma QuotedKeepsClose(s: string, m: int) returns (j: int)
    requires OccursAt(s, "];", m)
    ensures OccursAt(Stringify(JStr(s)), "];", j)
  {
    EscapeClose();
    var k := EscapedKeeps(s, "];", m);
    OccursRight("\"", Escape(s), "];", k);
    OccursLeft("\"" + Escape(s), "\"", "];", 1 + k);
    j := 1 + k;
  }

  /** A member's text contains its value's text. */
  lemma MemberKeepsClose(mb: Member, m: int) returns (j: int)
    requires OccursAt(Stringify(mb.value), "];", m)
    ensures OccursAt(MemberText(mb), "];", j)
  {
    OccursRight(Quote(mb.key) + ":", Stringify(mb.value), "];", m);
    j := |Quote(mb.key) + ":"| + m;
  }

  /** The written member list contains every written member. */
  lemma {:induction false} MembersKeepClose(ms: seq<Member>, i: nat, m: int) returns (j: int)
    requires i < |ms| && OccursAt(MemberText(ms[i]), "];", m)
    ensures OccursAt(Members(ms), "];", j)
    decreases ms
  {
    if |ms| == 1 {
      j := m;
    } else if i == 0 {
      OccursLeft(MemberText(ms[0]), ",", "];", m);
      OccursLeft(MemberText(ms[0]) + ",", Members(ms[1..]), "];", m);
      j := m;
    } else {
      var k := MembersKeepClose(ms[1..], i - 1, m);
      OccursRight(MemberText(ms[0]) + ",", Members(ms[1..]), "];", k);
      j := |MemberText(ms[0]) + ","| + k;
    }
  }

  /** The written list contains every written item. */
  lemma {:induction false} ElementsKeepClose(items: seq<Json>, i: nat, m: int) returns (j: int)
    requires i < |items| && OccursAt(Stringify(items[i]), "];", m)
    ensures OccursAt(Elements(items), "];", j)
    decreases items
  {
    if |items| == 1 {
      j := m;
    } else if i == 0 {
      OccursLeft(Stringify(items[0]), ",", "];", m);
      OccursLeft(Stringify(items[0]) + ",", Elements(items[1..]), "];", m);
      j := m;
    } else {
      var k := ElementsKeepClose(items[1..], i - 1, m);
      OccursRight(Stringify(items[0]) + ",", Elements(items[1..]), "];", k);
      j := |Stringify(items[0]) + ","| + k;
    }
  }

  /** A bracketed text contains what its body contains. */
  lemma BracketKeepsClose(open: string, body: string, close: string, m: int) returns (j: int)
    requires OccursAt(body, "];", m)
    ensures OccursAt(open + body + close, "];", j)
  {
    OccursRight(open, body, "];", m);
    OccursLeft(open + body, close, "];", |open| + m);
    j := |open| + m;
  }

  /**
    The regular expression as written never hands over the exported list
    when some exported id or name contains `];`: its capture cannot
    contain `];`, and that list does.
  */
  lemma CaptureAsWrittenLosesList(entries: seq<ExportEntry>, i: nat)
    requires i < |entries| && (Includes(entries[i].id, "];") || Includes(entries[i].name, "];"))
    ensures CaptureAsWritten(ExportScript(entries)) != Some(ExportText(entries))
  {
    var f := if Includes(entries[i].name, "];") then 1 else 0;
    var str := if f == 1 then entries[i].name else entries[i].id;
    var m :| OccursAt(str, "];", m);
    var e := EntryJson(entries[i]);
    var k0 := QuotedKeepsClose(str, m);
    assert e.members[f].value == JStr(str);
    var k1 := MemberKeepsClose(e.members[f], k0);
    var k2 := MembersKeepClose(e.members, f, k1);
    var k3 := BracketKeepsClose("{", Members(e.members), "}", k2);
    var js := EntriesJson(entries);
    var k4 := ElementsKeepClose(js, i, k3);
    var k5 := BracketKeepsClose("[", Elements(js), "]", k4);
    assert OccursAt(ExportText(entries), "];", k5);
    CaptureUntilFacts(ExportScript(entries), "];");
  }

  /** A concrete course list the regular expression as written cuts short. */
  lemma CaptureAsWrittenExample()
    ensures var entries := [ExportEntry("A1", "Arrays[];", 80, "+")];
      CaptureAsWritten(ExportScript(entries)) != Some(ExportText(entries))
  {
    var name := "Arrays[];";
    assert OccursAt(name, "];", 7) by {
      assert name[7..9] == "];";
    }
    CaptureAsWrittenLosesList([ExportEntry("A1", name, 80, "+")], 0);
  }

  // What the regular expression as written does when no exported text contains `];`

  /** No `]` in `s` is directly followed by `;`. */
  predicate CloseFree(s: string) {
    forall m :: 0 <= m < |s| - 1 ==> !(s[m] == ']' && s[m + 1] == ';')
  }

  lemma CloseFreeIsNoClose(s: string)
    ensures CloseFree(s) <==> !Includes(s, "];")
  {
    if !CloseFree(s) {
      var m :| 0 <= m < |s| - 1 && s[m] == ']' && s[m + 1] == ';';
      assert s[m..m + 2] == "];";
      assert OccursAt(s, "];", m);
    }
    if Includes(s, "];") {
      var m :| OccursAt(s, "];", m);
      assert s[m] == s[m..m + 2][0] && s[m + 1] == s[m..m + 2][1];
    }
  }

  /** Two texts free of `];` join into one, unless the first ends with `]` and the second starts with `;`. */
  lemma CloseFreeConcat(a: string, b: string)
    requires CloseFree(a) && CloseFree(b)
    requires a != [] && b != [] ==> !(a[|a| - 1] == ']' && b[0] == ';')
    ensures CloseFree(a + b)
  {
    var t := a + b;
    forall m | 0 <= m < |t| - 1 ensures !(t[m] == ']' && t[m + 1] == ';') {
      if m + 1 < |a| {
        assert t[m] == a[m] && t[m + 1] == a[m + 1];
      } else if m >= |a| {
        assert t[m] == b[m - |a|] && t[m + 1] == b[m + 1 - |a|];
      } else {
        assert t[m] == a[|a| - 1] && t[m + 1] == b[0];
      }
    }
  }

  /** An escape sequence holds no `];`, ends with `]` only for `]` and starts with `;` only for `;`. */
  lemma EscapeCharEnds(c: char)
    ensures var r := EscapeChar(c);
      CloseFree(r) && (r[|r| - 1] == ']' ==> c == ']') && (r[0] == ';' ==> c == ';')
  {
  }

  /** Escaping a string free of `];` creates none. */
  lemma {:induction false} EscapeCloseFree(s: string)
    requires CloseFree(s)
    ensures CloseFree(Escape(s))
    ensures s != [] ==> Escape(s) != [] && (Escape(s)[0] == ';' ==> s[0] == ';')
  {
    if s != [] {
      var head, tail := EscapeChar(s[0]), Escape(s[1..]);
      EscapeCharEnds(s[0]);
      EscapeCloseFree(s[1..]);
      CloseFreeConcat(head, tail);
    }
  }

  /** Every string in `v`, key or value, is free of `];`. */
  predicate StringsCloseFree(v: Json)
    decreases v
  {
    match v
    case JStr(s) => CloseFree(s)
    case JArr(items) => forall i :: 0 <= i < |items| ==> StringsCloseFree(items[i])
    case JObj(members) => forall i :: 0 <= i < |members| ==>
      CloseFree(members[i].key) && StringsCloseFree(members[i].value)
    case _ => true
  }

  lemma QuoteCloseFree(s: string)
    requires CloseFree(s)
    ensures CloseFree(Quote(s))
  {
    EscapeCloseFree(s);
    CloseFreeConcat("\"", Escape(s));
    CloseFreeConcat("\"" + Escape(s), "\"");
  }

  /** `JSON.stringify` writes `];` only where a string it writes holds one. */
  lemma {:induction false} StringifyCloseFree(v: Json)
    requires StringsCloseFree(v)
    ensures CloseFree(Stringify(v)) && Stringify(v)[0] != ';'
    decreases v
  {
    match v
    case JNull =>
    case JBool(_) =>
    case JNum(n) =>
    case JStr(s) => QuoteCloseFree(s);
    case JArr(items) =>
      ElementsCloseFree(items);
      CloseFreeConcat("[", Elements(items));
      CloseFreeConcat("[" + Elements(items), "]");
    case JObj(members) =>
      MembersCloseFree(members);
      CloseFreeConcat("{", Members(members));
      CloseFreeConcat("{" + Members(members), "}");
  }

  lemma {:induction false} ElementsCloseFree(items: seq<Json>)
    requires forall i :: 0 <= i < |items| ==> StringsCloseFree(items[i])
    ensures CloseFree(Elements(items))
    decreases items
  {
    if |items| == 1 {
      StringifyCloseFree(items[0]);
    } else if |items| > 1 {
      var first := Stringify(items[0]);
      StringifyCloseFree(items[0]);
      ElementsCloseFree(items[1..]);
      CloseFreeConcat(first, ",");
      CloseFreeConcat(first + ",", Elements(items[1..]));
    }
  }

  lemma {:induction false} MembersCloseFree(members: seq<Member>)
    requires forall i :: 0 <= i < |members| ==> CloseFree(members[i].key) && StringsCloseFree(members[i].value)
    ensures CloseFree(Members(members))
    decreases members
  {
    if members != [] {
      var m := members[0];
      var key := Quote(m.key);
      QuoteCloseFree(m.key);
      StringifyCloseFree(m.value);
      CloseFreeConcat(key, ":");
      CloseFreeConcat(key + ":", Stringify(m.value));
      if |members| > 1 {
        MembersCloseFree(members[1..]);
        CloseFreeConcat(MemberText(m), ",");
        CloseFreeConcat(MemberText(m) + ",", Members(members[1..]));
      }
    }
  }

  /** With no `];` in any id, name or mark, the exported list holds no `];`. */
  lemma ExportTextCloseFree(entries: seq<ExportEntry>)
    requires forall i :: 0 <= i < |entries| ==>
      CloseFree(entries[i].id) && CloseFree(entries[i].name) && CloseFree(entries[i].isSel)
    ensures CloseFree(ExportText(entries))
  {
    var js := EntriesJson(entries);
    forall i | 0 <= i < |js| ensures StringsCloseFree(js[i]) {
      var e := entries[i];
      assert CloseFree("id") && CloseFree("name") && CloseFree("value") && CloseFree("isSel");
      assert StringsCloseFree(JNum(e.value));
    }
    StringifyCloseFree(JArr(js));
  }

  /** In a framed text whose list holds no `];`, the first `];` after the marker ends the list. */
  lemma CloseFramedAsWritten(pre: string, body: string, post: string, t: string)
    requires |body| >= 2 && body[|body| - 1] == ']' && CloseFree(body)
    requires StartsWith(post, ";")
    requires t == pre + "exportClass = " + body + post
    ensures FindFrom(t, "];", |pre| + 15) == Some(|pre| + 14 + |body| - 1)
  {
    var close := "];";
    var h := |pre| + 14;
    var q := h + |body| - 1;
    assert t[q..q + 2] == close by {
      assert t[q] == body[|body| - 1];
      assert t[q + 1] == post[0];
    }
    forall j | |pre| + 15 <= j < q ensures !OccursAt(t, close, j) {
      assert 0 <= j - h && j - h + 1 < |body|;
      assert !(body[j - h] == ']' && body[j - h + 1] == ';');
      assert t[j] == body[j - h] && t[j + 1] == body[j + 1 - h];
      assert t[j..j + 2] == [t[j], t[j + 1]] && close == [']', ';'];
    }
    FindFromIs(t, close, |pre| + 15, q);
  }

  /** The capture as written finds any list free of `];` framed the way the export script frames it. */
  lemma CaptureFramedAsWritten(pre: string, body: string, post: string)
    requires 'x' !in pre
    requires |body| >= 2 && body[0] == '[' && body[|body| - 1] == ']' && CloseFree(body)
    requires StartsWith(post, ";")
    ensures CaptureAsWritten(pre + "exportClass = " + body + post) == Some(body)
  {
    var head := pre + "exportClass = ";
    var t := head + body + post;
    var p, q := |pre|, |head| + |body| - 1;
    MarkerFramed(pre, body, post, t);
    CloseFramedAsWritten(pre, body, post, t);
    assert t[p + 14..q + 1] == body;
  }

  /**
    The regular expression as written hands over exactly the exported list
    when no exported id, name or mark contains `];`.
  */
  lemma CleanExportCaptured(entries: seq<ExportEntry>)
    requires forall i :: 0 <= i < |entries| ==>
      CloseFree(entries[i].id) && CloseFree(entries[i].name) && CloseFree(entries[i].isSel)
    ensures CaptureAsWritten(ExportScript(entries)) == Some(ExportText(entries))
  {
    var body := ExportText(entries);
    ExportTextCloseFree(entries);
    PreambleHasNoX();
    assert StartsWith(ScriptTail, ";") by {
      assert ScriptTail[..1] == ";";
    }
    assert ExportScript(entries) == ScriptPreamble + "exportClass = " + body + ScriptTail;
    CaptureFramedAsWritten(ScriptPreamble, body, ScriptTail);
  }

  /**
    For the rows an export writes, the regular expression as written hands
    over the exported list exactly when no exported id or name contains `];`.
  */
  lemma CaptureAsWrittenExact(entries: seq<ExportEntry>)
    requires forall i :: 0 <= i < |entries| ==> entries[i].isSel == "+"
    ensures CaptureAsWritten(ExportScript(entries)) == Some(ExportText(entries)) <==>
      forall i :: 0 <= i < |entries| ==> !Includes(entries[i].id, "];") && !Includes(entries[i].name, "];")
  {
    if forall i :: 0 <= i < |entries| ==> !Includes(entries[i].id, "];") && !Includes(entries[i].name, "];") {
      forall i | 0 <= i < |entries|
        ensures CloseFree(entries[i].id) && CloseFree(entries[i].name) && CloseFree(entries[i].isSel)
      {
        CloseFreeIsNoClose(entries[i].id);
        CloseFreeIsNoClose(entries[i].name);
      }
      CleanExportCaptured(entries);
    } else {
      var i :| 0 <= i < |entries| && (Includes(entries[i].id, "];") || Includes(entries[i].name, "];"));
      CaptureAsWrittenLosesList(entries, i);
    }
  }

  /**
    Exporting, pasting the whole script into the dialog and importing,
    with the dialog's regular expression as written: when no selected
    course's number or name contains `];`, the import selects the
    catalogue courses whose numbers were exported, in catalogue order,
    each with its exported weight.
  */
  lemma ScriptRoundTripAsWritten(courses: seq<Course>, added: seq<string>, selected: seq<Course>, weights: map<string, Weight>)
    requires WeightsInRange(weights)
    requires forall n :: n in added ==> n in Numbers(selected)
    requires forall c :: c in selected ==> !Includes(c.number, "];") && !Includes(c.name, "];")
    ensures var entries := ExportData(added, selected, weights).value;
      var cap := CaptureAsWritten(ExportScript(entries));
      cap.Some? &&
      (var plan := ImportPlan(courses, cap.value);
       plan.Value? &&
       StepCourses(plan.value) == Filter(courses, NumberIn(added)) &&
       forall i :: 0 <= i < |plan.value| ==>
         ClampWeight(plan.value[i].weightText) == Some(ExportValue(weights, plan.value[i].course.number)))
  {
    var entries := ExportData(added, selected, weights).value;
    forall i | 0 <= i < |entries|
      ensures CloseFree(entries[i].id) && CloseFree(entries[i].name) && CloseFree(entries[i].isSel)
    {
      var c := FindByNumber(selected, added[i]).value;
      assert entries[i] == ExportEntry(c.number, c.name, ExportValue(weights, c.number), "+");
      CloseFreeIsNoClose(c.number);
      CloseFreeIsNoClose(c.name);
    }
    CleanExportCaptured(entries);
    ExportThenImport(courses, added, selected, weights);
  }

  /** The dialog's own state. */
  class ImportModal {
    /** The pasted text. */
    var importCode: string
    /** Whether the invalid-code message is hidden. */
    var isValid: bool

    constructor ()
      ensures importCode == "" && isValid
    {
      importCode := "";
      isValid := true;
    }

    /** `handleCodeChange`: the text field's new value replaces the pasted text. */
    method HandleCodeChange(value: string)
      modifies this
      ensures importCode == value && isValid == old(isValid)
    {
      importCode := value;
    }

    /**
      `handleImport`. `submit` is `onImportCodeSubmit`; it returns whether
      the import succeeded, or throws. `submitted` is what it was called
      with (`None`: not called) and `closed` whether `onHide` was called.
      The dialog never sets `isValid` back to true.
    */
    method HandleImport(submit: string -> Outcome<bool>) returns (submitted: Option<string>, closed: bool)
      modifies this
      ensures submitted == CaptureAsWritten(old(importCode))
      ensures closed <==> submitted.Some? && submit(submitted.value) == Value(true)
      ensures isValid == (old(isValid) && closed)
      ensures importCode == old(importCode)
    {
      submitted := CaptureAsWritten(importCode);
      closed := false;
      if submitted.None? {
        isValid := false;
        return;
      }
      var success := submit(submitted.value);
      if success.Throws? {
        isValid := false;
      } else if success.value {
        closed := true;
      } else {
        isValid := false;
      }
    }
  }
}
