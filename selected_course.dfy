/**
  The "selected courses" panel of the older page. Of the selected courses
  some are marked as added (to be entered into the university's
  registration form), each with a weight from 0 to 100. The panel exports
  the added courses as a script that fills the form, with the list
  embedded as JSON, and imports such a list back: every catalogue course
  named in it is selected and given the exported weight.
*/
module SelectedCourses {
  import opened Outcomes
  import opened Courses
  import opened Seqs
  import opened JsStrings
  import opened Numerals
  import opened JsonText
  import AppSession

  /** A stored weight: a number, or `NaN` (`None`) when the typed text held no digits. */
  type Weight = Option<int>

  /**
    The weight `handleCourseWeightChange` stores for a parsed number: the
    number, moved to the nearer end of 0..100 when outside; `NaN` fails
    both comparisons and is stored as it is.
  */
  function Clamp(parsed: Option<int>): (w: Weight)
    ensures w.None? <==> parsed.None?
    ensures InRange(w)
    ensures w.Some? ==> var n := parsed.value;
      w.value == n || (n < 0 && w.value == 0) || (n > 100 && w.value == 100)
  {
    match parsed
    case None => None
    case Some(n) => Some(if n > 100 then 100 else if n < 0 then 0 else n)
  }

  /** The weight stored for typed text: `parseInt`, then the clamp. */
  function ClampWeight(text: string): (w: Weight)
    ensures InRange(w)
  {
    Clamp(ParseInt(text))
  }

  /** A weight already in 0..100, written in decimal, is stored unchanged. */
  lemma ClampWeightOfRendering(v: int)
    requires 0 <= v <= 100
    ensures ClampWeight(IntToString(v)) == Some(v)
  {
    ParseIntOfIntToString(v);
  }

  /** A weight that is a number lies in 0..100. */
  predicate InRange(w: Weight) {
    w.Some? ==> 0 <= w.value <= 100
  }

  /** Every stored weight is in range. */
  ghost predicate WeightsInRange(weights: map<string, Weight>) {
    forall n :: n in weights ==> InRange(weights[n])
  }

  /** Storing a weight in range keeps every weight in range. */
  lemma WeightsInRangeUpdate(weights: map<string, Weight>, n: string, w: Weight)
    requires WeightsInRange(weights) && InRange(w)
    ensures WeightsInRange(weights[n := w])
  { }

  /** `courseWeight[number] || 0`: a missing weight, `NaN` and 0 all export as 0. */
  function ExportValue(weights: map<string, Weight>, number: string): int {
    if number in weights && weights[number].Some? then weights[number].value else 0
  }

  /** One row of the exported list: `{id, name, value, isSel}`. */
  datatype ExportEntry = ExportEntry(id: string, name: string, value: int, isSel: string)

  /** The ids of exported rows, in order. */
  function Ids(entries: seq<ExportEntry>): (r: seq<string>)
    ensures |r| == |entries|
    ensures forall i :: 0 <= i < |entries| ==> r[i] == entries[i].id
  {
    if entries == [] then [] else [entries[0].id] + Ids(entries[1..])
  }

  /** `Array.from(selectedCourses).find(c => c['Number'] === number)` */
  function FindByNumber(selected: seq<Course>, number: string): (r: Option<Course>)
    ensures r.None? <==> number !in Numbers(selected)
    ensures r.Some? ==> r.value in selected && r.value.number == number
  {
    var i := IndexOf(Numbers(selected), number);
    if i < 0 then None else Some(selected[i])
  }

  /** The row exported for an added number: the selected course's number and name, its weight, and `+`. */
  function ExportRow(selected: seq<Course>, weights: map<string, Weight>, number: string): (e: ExportEntry)
    requires number in Numbers(selected)
    ensures e.id == number && e.value == ExportValue(weights, number) && e.isSel == "+"
  {
    var c := FindByNumber(selected, number).value;
    ExportEntry(c.number, c.name, ExportValue(weights, c.number), "+")
  }

  /**
    `exportData`: one row per added number, in the set's order. An added
    number that no selected course carries makes `course['Number']` read
    a property of `undefined`, which throws.
  */
  function ExportData(added: seq<string>, selected: seq<Course>, weights: map<string, Weight>): (r: Outcome<seq<ExportEntry>>)
    ensures r.Value? <==> forall n :: n in added ==> n in Numbers(selected)
    ensures r.Value? ==> Ids(r.value) == added
    ensures r.Value? ==> forall i :: 0 <= i < |r.value| ==>
      added[i] in Numbers(selected) && r.value[i] == ExportRow(selected, weights, added[i])
  {
    if added == [] then Value([])
    else if added[0] !in Numbers(selected) then
      assert added[0] in added;
      Throws
    else
      match ExportData(added[1..], selected, weights)
      case Throws =>
        assert exists n :: n in added[1..] && n !in Numbers(selected);
        Throws
      case Value(rest) =>
        ExportDataCons(added, selected, weights, rest);
        Value([ExportRow(selected, weights, added[0])] + rest)
  }

  /** The rows of the remaining numbers, with the first number's row in front, are the rows of all of them. */
  lemma ExportDataCons(added: seq<string>, selected: seq<Course>, weights: map<string, Weight>, rest: seq<ExportEntry>)
    requires added != [] && added[0] in Numbers(selected)
    requires forall n :: n in added[1..] ==> n in Numbers(selected)
    requires Ids(rest) == added[1..]
    requires forall i :: 0 <= i < |rest| ==>
      added[1..][i] in Numbers(selected) && rest[i] == ExportRow(selected, weights, added[1..][i])
    ensures forall n :: n in added ==> n in Numbers(selected)
    ensures var r := [ExportRow(selected, weights, added[0])] + rest;
      Ids(r) == added &&
      forall i :: 0 <= i < |r| ==> added[i] in Numbers(selected) && r[i] == ExportRow(selected, weights, added[i])
  {
    var row := ExportRow(selected, weights, added[0]);
    IdsCons(row, rest);
    assert [added[0]] + added[1..] == added;
    forall n | n in added ensures n in Numbers(selected) {
      if n != added[0] {
        assert n in added[1..];
      }
    }
    var r := [row] + rest;
    forall i | 0 <= i < |r| ensures added[i] in Numbers(selected) && r[i] == ExportRow(selected, weights, added[i]) {
      if i > 0 {
        assert r[i] == rest[i - 1] && added[i] == added[1..][i - 1];
      }
    }
  }

  lemma IdsCons(e: ExportEntry, rest: seq<ExportEntry>)
    ensures Ids([e] + rest) == [e.id] + Ids(rest)
  {
    assert ([e] + rest)[1..] == rest;
  }

  /** One exported row as the object `JSON.stringify` writes, keys in literal order. */
  function EntryJson(e: ExportEntry): Json {
    JObj([Member("id", JStr(e.id)), Member("name", JStr(e.name)), Member("value", JNum(e.value)), Member("isSel", JStr(e.isSel))])
  }

  function EntriesJson(entries: seq<ExportEntry>): (r: seq<Json>)
    ensures |r| == |entries|
    ensures forall i :: 0 <= i < |entries| ==> r[i] == EntryJson(entries[i])
  {
    if entries == [] then [] else [EntryJson(entries[0])] + EntriesJson(entries[1..])
  }

  /** `JSON.stringify(exportData)` */
  function ExportText(entries: seq<ExportEntry>): string {
    Stringify(JArr(EntriesJson(entries)))
  }

  /** The script text before `exportClass`, in pieces short enough to reason about character by character. */
  const ScriptPreamble: string :=
    "const frame = " + "document.getEle" + "mentById('main');\n" +
    "const doc = " + "frame.contentDoc" + "ument || frame." + "contentWindow." + "document;\nconst "

  /** The script text before the embedded list. */
  const ScriptHead: string := ScriptPreamble + "exportClass = "

  /** The script text after the embedded list. */
  const ScriptTail: string :=
    ";\n" +
    "try {\n" +
    "    exportClass.forEach((ec, i) => {\n" +
    "        const inputs = doc.querySelectorAll('input');\n" +
    "        inputs[2*i].value = ec['id'];\n" +
    "        inputs[2*i+1].value = ec['value'];\n" +
    "        doc.querySelectorAll('select')[i].value = ec['isSel'];\n" +
    "    });\n" +
    "    console.log('自動填寫: 完成');\n" +
    "} catch (e) {\n" +
    "    console.error('自動填寫: 失敗: ' + e);\n" +
    "}\n"

  /** `genCode`: the form-filling script with the list embedded. */
  function ExportScript(entries: seq<ExportEntry>): string {
    ScriptHead + ExportText(entries) + ScriptTail
  }

  // Import

  /**
    `ec[key]` on a parsed value, for the keys `id` and `value` that no
    prototype provides: the member of an object (the last one with that
    key, as `JSON.parse` keeps), `undefined` (`None`) on any other value,
    and a `TypeError` on `null`.
  */
  function Property(v: Json, key: string): (r: Outcome<Option<Json>>)
    ensures r.Throws? <==> v.JNull?
    ensures r.Value? && r.value.Some? ==> v.JObj? && Member(key, r.value.value) in v.members
    ensures v.JObj? ==> (r.value.None? <==> forall m :: m in v.members ==> m.key != key)
  {
    match v
    case JNull => Throws
    case JObj(members) => Value(LastValue(members, key))
    case _ => Value(None)
  }

  /** The value of the last member with `key`. */
  function LastValue(members: seq<Member>, key: string): (r: Option<Json>)
    ensures r.None? <==> forall m :: m in members ==> m.key != key
    ensures r.Some? ==> Member(key, r.value) in members
  {
    if members == [] then None
    else
      var last := members[|members| - 1];
      var front := members[..|members| - 1];
      assert members == front + [last];
      if last.key == key then Some(last.value)
      else
        LastValue(front, key)
  }

  /** `ec => ec['id'] === number`: the id must be that very string. */
  function IdIs(ec: Json, number: string): (r: Outcome<bool>)
    ensures r.Throws? <==> ec.JNull?
    ensures r == Value(true) ==> Property(ec, "id") == Value(Some(JStr(number)))
  {
    match Property(ec, "id")
    case Throws => Throws
    case Value(p) => Value(p == Some(JStr(number)))
  }

  /**
    `items.find(ec => ec['id'] === number)`: the first element whose `id` is
    the string `number`, testing in order; a `null` reached before it
    throws. `items.some` with the same test stops at the same element, so
    it throws exactly when this does and answers whether this found one.
  */
  function FindById(items: seq<Json>, number: string): (r: Outcome<Option<Json>>)
    ensures JNull !in items ==> r.Value?
    ensures r.Throws? ==> JNull in items
    ensures r.Value? && r.value.Some? ==> r.value.value in items && IdIs(r.value.value, number) == Value(true)
    ensures r.Value? && r.value.None? ==> forall x :: x in items ==> IdIs(x, number) == Value(false)
  {
    if items == [] then Value(None)
    else
      match IdIs(items[0], number)
      case Throws => Throws
      case Value(b) =>
        if b then Value(Some(items[0]))
        else
          var r := FindById(items[1..], number);
          assert forall x :: x in items ==> x == items[0] || x in items[1..];
          r
  }

  /** The catalogue course test of the import: an entry in the list names it. */
  predicate Named(items: seq<Json>, c: Course) {
    FindById(items, c.number).Value? && FindById(items, c.number).value.Some?
  }

  /**
    `courses.filter(course => items.some(...))`: the catalogue courses the
    list names, in catalogue order. A test that throws makes the whole
    filter throw.
  */
  function Matched(courses: seq<Course>, items: seq<Json>): (r: Outcome<seq<Course>>)
    ensures r.Value? <==> forall c :: c in courses ==> FindById(items, c.number).Value?
    ensures r.Value? ==> IsSubsequence(r.value, courses)
    ensures r.Value? ==> forall c :: c in r.value <==> c in courses && Named(items, c)
  {
    if courses == [] then Value([])
    else
      var c := courses[0];
      assert forall d :: d in courses ==> d == c || d in courses[1..];
      match FindById(items, c.number)
      case Throws => Throws
      case Value(found) =>
        match Matched(courses[1..], items)
        case Throws => Throws
        case Value(rest) =>
          if found.Some? then Value([c] + rest)
          else
            SubsequenceSkip(rest, courses);
            Value(rest)
  }

  lemma SubsequenceSkip<T>(a: seq<T>, b: seq<T>)
    requires b != [] && IsSubsequence(a, b[1..])
    ensures IsSubsequence(a, b)
  {
  }

  /** `String(x)` on a parsed value; `undefined` is `None`. */
  function JsString(x: Option<Json>): string {
    match x
    case None => "undefined"
    case Some(v) => ValueString(v)
  }

  /** `String(v)`: arrays join their elements with commas, `null` elements as empty text. */
  function ValueString(v: Json): string
    decreases v
  {
    match v
    case JNull => "null"
    case JBool(b) => if b then "true" else "false"
    case JNum(n) => IntToString(n)
    case JStr(s) => s
    case JArr(items) => Join(ElementStrings(items), ",")
    case JObj(_) => "[object Object]"
  }

  function ElementStrings(items: seq<Json>): (r: seq<string>)
    ensures |r| == |items|
    decreases items
  {
    if items == [] then []
    else [if items[0].JNull? then "" else ValueString(items[0])] + ElementStrings(items[1..])
  }

  /** One import step: a course to select and the text its weight is parsed from. */
  datatype ImportStep = ImportStep(course: Course, weightText: string)

  function StepCourses(plan: seq<ImportStep>): (r: seq<Course>)
    ensures |r| == |plan|
    ensures forall i :: 0 <= i < |plan| ==> r[i] == plan[i].course
  {
    if plan == [] then [] else [plan[0].course] + StepCourses(plan[1..])
  }

  /** `String(items.find(...)['value'])` for a course the list names. */
  function EntryValueText(items: seq<Json>, c: Course): string
    requires Named(items, c)
  {
    var entry := FindById(items, c.number).value.value;
    JsString(Property(entry, "value").value)
  }

  /** For each matched course, in order, the text of its entry's `value`. */
  function WeightTexts(picked: seq<Course>, items: seq<Json>): (r: seq<ImportStep>)
    requires forall c :: c in picked ==> Named(items, c)
    ensures StepCourses(r) == picked
    ensures forall i :: 0 <= i < |r| ==> picked[i] in picked && r[i].weightText == EntryValueText(items, picked[i])
  {
    var r := seq(|picked|, i requires 0 <= i < |picked| => ImportStep(picked[i], EntryValueText(items, picked[i])));
    assert forall i :: 0 <= i < |r| ==> StepCourses(r)[i] == picked[i];
    r
  }

  /**
    What `handleImportCode` does with `code`, before touching any state:
    parse it, keep the catalogue courses the list names, and pair each
    with its entry's `value`. A `SyntaxError`, `some` on a value that is
    not an array (called only when the catalogue is not empty) and a test
    reaching `null` all throw; the handler then returns false.
  */
  function ImportPlan(courses: seq<Course>, code: string): (r: Outcome<seq<ImportStep>>)
    ensures Parse(code).None? ==> r.Throws?
    ensures courses != [] && Parse(code).Some? && !Parse(code).value.JArr? ==> r.Throws?
    ensures r.Value? ==> IsSubsequence(StepCourses(r.value), courses)
    ensures r.Value? && courses != [] ==> (Parse(code).value.JArr? &&
      forall c :: c in StepCourses(r.value) <==> c in courses && Named(Parse(code).value.items, c))
  {
    match Parse(code)
    case None => Throws
    case Some(json) =>
      if courses == [] then Value([])
      else if !json.JArr? then Throws
      else
        match Matched(courses, json.items)
        case Throws => Throws
        case Value(picked) => Value(WeightTexts(picked, json.items))
  }

  /** `onCourseSelect(course, true)` for each course in turn. */
  function SelectAll(selected: seq<Course>, cs: seq<Course>): (r: seq<Course>)
    ensures NoDups(selected) ==> NoDups(r)
    ensures forall x :: x in r <==> x in selected || x in cs
    ensures IsSubsequence(selected, r)
    decreases |cs|
  {
    if cs == [] then
      SubsequenceReflexive(selected);
      selected
    else
      var front := SelectAll(selected, cs[..|cs| - 1]);
      assert forall x :: x in cs ==> x in cs[..|cs| - 1] || x == cs[|cs| - 1];
      PrefixSubsequence(selected, front, cs[|cs| - 1]);
      Insert(front, cs[|cs| - 1])
  }

  lemma PrefixSubsequence<T(!new)>(a: seq<T>, b: seq<T>, x: T)
    requires IsSubsequence(a, b)
    ensures IsSubsequence(a, Insert(b, x))
  {
    if x !in b {
      SubsequenceAppend(a, b, [x]);
    }
  }

  lemma {:induction false} SubsequenceAppend<T>(a: seq<T>, b: seq<T>, tail: seq<T>)
    requires IsSubsequence(a, b)
    ensures IsSubsequence(a, b + tail)
    decreases |b|
  {
    if a != [] && b != [] {
      assert (b + tail)[1..] == b[1..] + tail;
      if a[0] == b[0] && IsSubsequence(a[1..], b[1..]) {
        SubsequenceAppend(a[1..], b[1..], tail);
      } else {
        SubsequenceAppend(a, b[1..], tail);
      }
    } else if a != [] {
      assert false;
    }
  }

  /** `handleCourseWeightChange(course, text)` for each step in turn. */
  function Reweigh(weights: map<string, Weight>, plan: seq<ImportStep>): (r: map<string, Weight>)
    ensures WeightsInRange(weights) ==> WeightsInRange(r)
    ensures forall n :: n in r <==> n in weights || n in StepNumbers(plan)
    ensures forall n :: n in weights && n !in StepNumbers(plan) ==> r[n] == weights[n]
    decreases |plan|
  {
    if plan == [] then weights
    else
      var front := plan[..|plan| - 1];
      var last := plan[|plan| - 1];
      StepNumbersSnoc(plan);
      var prev, w := Reweigh(weights, front), ClampWeight(last.weightText);
      assert WeightsInRange(prev) ==> WeightsInRange(prev[last.course.number := w]) by {
        if WeightsInRange(prev) {
          WeightsInRangeUpdate(prev, last.course.number, w);
        }
      }
      prev[last.course.number := w]
  }

  /** The course numbers of a plan, in order. */
  function StepNumbers(plan: seq<ImportStep>): (r: seq<string>)
    ensures |r| == |plan|
    ensures forall i :: 0 <= i < |plan| ==> r[i] == plan[i].course.number
  {
    if plan == [] then [] else [plan[0].course.number] + StepNumbers(plan[1..])
  }

  lemma StepNumbersSnoc(plan: seq<ImportStep>)
    requires plan != []
    ensures forall n :: n in StepNumbers(plan) <==> n in StepNumbers(plan[..|plan| - 1]) || n == plan[|plan| - 1].course.number
  {
    var front := plan[..|plan| - 1];
    var whole, prefix, last := StepNumbers(plan), StepNumbers(front), plan[|plan| - 1].course.number;
    assert forall k :: 0 <= k < |prefix| ==> whole[k] == prefix[k];
    assert whole == prefix + [last];
  }

  /** A course's weight after the import comes from the last step naming its number. */
  lemma {:induction false} ReweighLastStep(weights: map<string, Weight>, plan: seq<ImportStep>, i: nat)
    requires i < |plan|
    requires forall j :: i < j < |plan| ==> plan[j].course.number != plan[i].course.number
    ensures plan[i].course.number in Reweigh(weights, plan)
    ensures Reweigh(weights, plan)[plan[i].course.number] == ClampWeight(plan[i].weightText)
    decreases |plan|
  {
    assert StepNumbers(plan)[i] == plan[i].course.number;
    if i < |plan| - 1 {
      ReweighLastStep(weights, plan[..|plan| - 1], i);
    }
  }

  /** Reading `id` from an exported row gives its id. */
  lemma EntryId(e: ExportEntry)
    ensures Property(EntryJson(e), "id") == Value(Some(JStr(e.id)))
  {
    var ms := EntryJson(e).members;
    assert LastValue(ms, "id") == LastValue(ms[..3], "id");
    assert LastValue(ms[..3], "id") == LastValue(ms[..3][..2], "id");
    assert LastValue(ms[..3][..2], "id") == LastValue(ms[..3][..2][..1], "id");
  }

  /** Reading `value` from an exported row gives its weight. */
  lemma EntryValue(e: ExportEntry)
    ensures Property(EntryJson(e), "value") == Value(Some(JNum(e.value)))
  {
    var ms := EntryJson(e).members;
    assert ms[3].key[0] != 'v';
    assert LastValue(ms, "value") == LastValue(ms[..3], "value");
  }

  /** `find` stops at the first element that passes; none before it is `null`. */
  lemma {:induction false} FindByIdAt(items: seq<Json>, number: string, k: nat)
    requires k < |items| && IdIs(items[k], number) == Value(true)
    requires forall j :: 0 <= j < k ==> IdIs(items[j], number) == Value(false)
    ensures FindById(items, number) == Value(Some(items[k]))
  {
    if k > 0 {
      FindByIdAt(items[1..], number, k - 1);
    }
  }

  /** `find` with no element passing and none `null` finds nothing. */
  lemma {:induction false} FindByIdNone(items: seq<Json>, number: string)
    requires forall j :: 0 <= j < |items| ==> IdIs(items[j], number) == Value(false)
    ensures FindById(items, number) == Value(None)
  {
    if items != [] {
      FindByIdNone(items[1..], number);
    }
  }

  /** In the exported list, the entry found for a number is the first row with that id. */
  lemma FindExported(entries: seq<ExportEntry>, number: string)
    ensures number !in Ids(entries) ==> FindById(EntriesJson(entries), number) == Value(None)
    ensures number in Ids(entries) ==>
      FindById(EntriesJson(entries), number) == Value(Some(EntryJson(entries[IndexOf(Ids(entries), number)])))
  {
    var k := IndexOf(Ids(entries), number);
    if k < 0 {
      FindExportedNone(entries, number);
    } else {
      FindExportedAt(entries, number, k);
    }
  }

  lemma FindExportedNone(entries: seq<ExportEntry>, number: string)
    requires number !in Ids(entries)
    ensures FindById(EntriesJson(entries), number) == Value(None)
  {
    var js, ids := EntriesJson(entries), Ids(entries);
    ExportedIdTests(entries, number);
    forall j | 0 <= j < |js| ensures IdIs(js[j], number) == Value(false) {
      assert ids[j] in ids;
    }
    FindByIdNone(js, number);
  }

  lemma FindExportedAt(entries: seq<ExportEntry>, number: string, k: nat)
    requires k < |entries| && Ids(entries)[k] == number
    requires forall j :: 0 <= j < k ==> Ids(entries)[j] != number
    ensures FindById(EntriesJson(entries), number) == Value(Some(EntryJson(entries[k])))
  {
    var js := EntriesJson(entries);
    ExportedIdTests(entries, number);
    assert IdIs(js[k], number) == Value(true);
    FindByIdAt(js, number, k);
  }

  /** The `id` test on an exported row compares the number with the row's id. */
  lemma ExportedIdTests(entries: seq<ExportEntry>, number: string)
    ensures forall j :: 0 <= j < |entries| ==> IdIs(EntriesJson(entries)[j], number) == Value(Ids(entries)[j] == number)
  {
    forall j | 0 <= j < |entries| ensures IdIs(EntriesJson(entries)[j], number) == Value(Ids(entries)[j] == number) {
      EntryId(entries[j]);
    }
  }

  /** The catalogue courses whose number is among `numbers`, as a test. */
  function NumberIn(numbers: seq<string>): Course -> bool {
    (c: Course) => c.number in numbers
  }

  /** Importing an exported list matches exactly the catalogue courses it numbers. */
  lemma {:induction false} MatchedExported(courses: seq<Course>, entries: seq<ExportEntry>)
    ensures Matched(courses, EntriesJson(entries)) == Value(Filter(courses, NumberIn(Ids(entries))))
  {
    if courses != [] {
      FindExported(entries, courses[0].number);
      MatchedExported(courses[1..], entries);
    }
  }

  /**
    The import plan of an exported list: the catalogue courses whose
    number was exported, in catalogue order, each with the decimal text
    of the first exported row carrying its number.
  */
  lemma ImportOfExported(courses: seq<Course>, entries: seq<ExportEntry>)
    ensures var plan := ImportPlan(courses, ExportText(entries));
      plan.Value? && StepCourses(plan.value) == Filter(courses, NumberIn(Ids(entries))) &&
      forall i :: 0 <= i < |plan.value| ==> (plan.value[i].course.number in Ids(entries) &&
        plan.value[i].weightText == IntToString(entries[IndexOf(Ids(entries), plan.value[i].course.number)].value))
  {
    ParseStringify(JArr(EntriesJson(entries)));
    ImportOfParsed(courses, ExportText(entries), entries);
  }

  lemma ImportOfParsed(courses: seq<Course>, code: string, entries: seq<ExportEntry>)
    requires Parse(code) == Some(JArr(EntriesJson(entries)))
    ensures var plan := ImportPlan(courses, code);
      plan.Value? && StepCourses(plan.value) == Filter(courses, NumberIn(Ids(entries))) &&
      forall i :: 0 <= i < |plan.value| ==> (plan.value[i].course.number in Ids(entries) &&
        plan.value[i].weightText == IntToString(entries[IndexOf(Ids(entries), plan.value[i].course.number)].value))
  {
    var js := EntriesJson(entries);
    if courses != [] {
      MatchedExported(courses, entries);
      var picked := Filter(courses, NumberIn(Ids(entries)));
      var plan := WeightTexts(picked, js);
      assert ImportPlan(courses, code) == Value(plan);
      forall i | 0 <= i < |plan|
        ensures plan[i].course.number in Ids(entries)
        ensures plan[i].weightText == IntToString(entries[IndexOf(Ids(entries), plan[i].course.number)].value)
      {
        assert picked[i] in picked;
        ExportedValueText(entries, picked[i]);
      }
    }
  }

  /** The weight text read back for an exported number is the decimal rendering of its first row's value. */
  lemma ExportedValueText(entries: seq<ExportEntry>, c: Course)
    requires c.number in Ids(entries)
    ensures Named(EntriesJson(entries), c)
    ensures EntryValueText(EntriesJson(entries), c) == IntToString(entries[IndexOf(Ids(entries), c.number)].value)
  {
    var e := entries[IndexOf(Ids(entries), c.number)];
    FindExported(entries, c.number);
    EntryValue(e);
    ValueTextOfFound(EntriesJson(entries), c, EntryJson(e), e.value);
  }

  /** The entry `find` returns holds a number as `value`, so its text is that number's rendering. */
  lemma ValueTextOfFound(items: seq<Json>, c: Course, entry: Json, v: int)
    requires FindById(items, c.number) == Value(Some(entry))
    requires Property(entry, "value") == Value(Some(JNum(v)))
    ensures Named(items, c) && EntryValueText(items, c) == IntToString(v)
  {
  }

  /**
    Export then import: importing the list exported from an added set
    selects exactly the catalogue courses whose numbers were added, in
    catalogue order, and gives each the weight it was exported with
    (a missing or `NaN` weight comes back as 0).
  */
  lemma ExportThenImport(courses: seq<Course>, added: seq<string>, selected: seq<Course>, weights: map<string, Weight>)
    requires WeightsInRange(weights)
    requires forall n :: n in added ==> n in Numbers(selected)
    ensures var entries := ExportData(added, selected, weights).value;
      var plan := ImportPlan(courses, ExportText(entries));
      plan.Value? &&
      StepCourses(plan.value) == Filter(courses, NumberIn(added)) &&
      forall i :: 0 <= i < |plan.value| ==>
        ClampWeight(plan.value[i].weightText) == Some(ExportValue(weights, plan.value[i].course.number))
  {
    var entries := ExportData(added, selected, weights).value;
    ImportOfExported(courses, entries);
    var plan := ImportPlan(courses, ExportText(entries)).value;
    forall i | 0 <= i < |plan|
      ensures ClampWeight(plan[i].weightText) == Some(ExportValue(weights, plan[i].course.number))
    {
      var n := plan[i].course.number;
      ExportedWeight(added, selected, weights, IndexOf(added, n));
    }
  }

  /** The weight exported in row `k` reads back, clamped, as the stored weight (0 when there was none). */
  lemma ExportedWeight(added: seq<string>, selected: seq<Course>, weights: map<string, Weight>, k: nat)
    requires WeightsInRange(weights)
    requires forall n :: n in added ==> n in Numbers(selected)
    requires k < |added|
    ensures var entries := ExportData(added, selected, weights).value;
      ClampWeight(IntToString(entries[k].value)) == Some(ExportValue(weights, added[k]))
  {
    var v := ExportValue(weights, added[k]);
    assert added[k] in weights ==> InRange(weights[added[k]]);
    ClampWeightOfRendering(v);
  }

  /** The test `selectedCourseNumbers.has(courseNumber)` of `syncAddedSelectedCourses`. */
  function IsSelectedNumber(selected: seq<Course>): string -> bool {
    n => n in Numbers(selected)
  }

  /**
    The added set `componentDidMount` ends with when a list was saved:
    `new Set(saved)`, then synchronised with the selection.
  */
  function Restored(saved: seq<string>, selected: seq<Course>): (r: seq<string>)
    ensures NoDups(r)
    ensures forall n :: n in r <==> n in saved && n in Numbers(selected)
    ensures IsSubsequence(r, Distinct(saved))
  {
    var added := Distinct(saved);
    FilterNoDups(added, IsSelectedNumber(selected));
    FilterIsSubsequence(added, IsSelectedNumber(selected));
    Filter(added, IsSelectedNumber(selected))
  }

  /**
    Saving and mounting again restores the added set: the list
    `syncAddedSelectedCourses` and `handleCourseAddedSelect` save is
    repeat-free, and, once synchronised, every number in it is selected.
  */
  lemma SaveThenRestore(added: seq<string>, selected: seq<Course>)
    requires NoDups(added)
    requires forall n :: n in added ==> n in Numbers(selected)
    ensures Restored(added, selected) == added
  {
    DistinctOfNoDups(added);
    FilterAll(added, IsSelectedNumber(selected));
  }

  /** The panel's own state. */
  class SelectedCourse {
    /** `addedSelectedCourses`: course numbers, a set in insertion order. */
    var addedSelectedCourses: seq<string>
    /** `courseWeight`: course number to weight. */
    var courseWeight: map<string, Weight>
    /** The persisted `addedSelectedCourses` entry, if present. */
    var savedAdded: Option<seq<string>>
    /** The persisted `courseWeight` entry, if present. */
    var savedWeight: Option<map<string, Weight>>
    /** `generatedCode`: the last exported script. */
    var generatedCode: string
    /** `showExportModal` */
    var showExportModal: bool

    ghost predicate Valid()
      reads this
    {
      NoDups(addedSelectedCourses) && WeightsInRange(courseWeight)
    }

    /** The initial state; the saved entries are whatever the browser holds. */
    constructor (savedAdded: Option<seq<string>>, savedWeight: Option<map<string, Weight>>)
      ensures Valid()
      ensures addedSelectedCourses == [] && courseWeight == map[]
      ensures this.savedAdded == savedAdded && this.savedWeight == savedWeight
      ensures generatedCode == "" && !showExportModal
    {
      addedSelectedCourses := [];
      courseWeight := map[];
      this.savedAdded := savedAdded;
      this.savedWeight := savedWeight;
      generatedCode := "";
      showExportModal := false;
    }

    /**
      `componentDidMount`: a saved added list becomes the added set and is
      synchronised with the selection; saved weights replace the weights
      as they are. The weights the page saves are clamped, so the state
      stays valid unless the stored entry was edited by hand.
    */
    method Mount(selected: seq<Course>)
      requires Valid()
      modifies this
      ensures old(savedAdded).Some? ==>
        addedSelectedCourses == Restored(old(savedAdded).value, selected) && savedAdded == Some(addedSelectedCourses)
      ensures old(savedAdded).None? ==> addedSelectedCourses == old(addedSelectedCourses) && savedAdded == None
      ensures courseWeight == if old(savedWeight).Some? then old(savedWeight).value else old(courseWeight)
      ensures savedWeight == old(savedWeight)
      ensures NoDups(addedSelectedCourses)
      ensures Valid() <==> WeightsInRange(courseWeight)
      ensures generatedCode == old(generatedCode) && showExportModal == old(showExportModal)
    {
      if savedAdded.Some? {
        addedSelectedCourses := Distinct(savedAdded.value);
        SyncAddedSelectedCourses(selected);
      }
      if savedWeight.Some? {
        courseWeight := savedWeight.value;
      }
    }

    /**
      `syncAddedSelectedCourses`: drop the added numbers that no longer
      belong to a selected course, keep the order, and persist the rest.
    */
    method SyncAddedSelectedCourses(selected: seq<Course>)
      requires Valid()
      modifies this
      ensures Valid()
      ensures addedSelectedCourses == Filter(old(addedSelectedCourses), IsSelectedNumber(selected))
      ensures IsSubsequence(addedSelectedCourses, old(addedSelectedCourses))
      ensures forall n :: n in addedSelectedCourses <==> n in old(addedSelectedCourses) && n in Numbers(selected)
      ensures savedAdded == Some(addedSelectedCourses)
      ensures courseWeight == old(courseWeight) && savedWeight == old(savedWeight)
      ensures generatedCode == old(generatedCode) && showExportModal == old(showExportModal)
    {
      var keep := IsSelectedNumber(selected);
      FilterNoDups(addedSelectedCourses, keep);
      FilterIsSubsequence(addedSelectedCourses, keep);
      addedSelectedCourses := Filter(addedSelectedCourses, keep);
      savedAdded := Some(addedSelectedCourses);
    }

    /** `handleCourseAddedSelect`: add or remove the course's number, then persist. */
    method HandleCourseAddedSelect(course: Course, isSelected: bool)
      requires Valid()
      modifies this
      ensures Valid()
      ensures addedSelectedCourses == if isSelected then Insert(old(addedSelectedCourses), course.number)
        else Delete(old(addedSelectedCourses), course.number)
      ensures forall n :: n in addedSelectedCourses <==> if n == course.number then isSelected else n in old(addedSelectedCourses)
      ensures savedAdded == Some(addedSelectedCourses)
      ensures courseWeight == old(courseWeight) && savedWeight == old(savedWeight)
      ensures generatedCode == old(generatedCode) && showExportModal == old(showExportModal)
    {
      if isSelected {
        addedSelectedCourses := Insert(addedSelectedCourses, course.number);
      } else {
        addedSelectedCourses := Delete(addedSelectedCourses, course.number);
      }
      savedAdded := Some(addedSelectedCourses);
    }

    /** `handleCourseWeightChange`: store the clamped weight under the course's number, then persist. */
    method HandleCourseWeightChange(course: Course, weight: string)
      requires Valid()
      modifies this
      ensures Valid()
      ensures courseWeight == old(courseWeight)[course.number := ClampWeight(weight)]
      ensures savedWeight == Some(courseWeight)
      ensures addedSelectedCourses == old(addedSelectedCourses) && savedAdded == old(savedAdded)
      ensures generatedCode == old(generatedCode) && showExportModal == old(showExportModal)
    {
      StoreWeight(course.number, ClampWeight(weight));
    }

    /** The `setState` and the save of `handleCourseWeightChange`, once the weight is clamped. */
    method StoreWeight(number: string, w: Weight)
      requires Valid() && InRange(w)
      modifies this
      ensures Valid()
      ensures courseWeight == old(courseWeight)[number := w]
      ensures savedWeight == Some(courseWeight)
      ensures addedSelectedCourses == old(addedSelectedCourses) && savedAdded == old(savedAdded)
      ensures generatedCode == old(generatedCode) && showExportModal == old(showExportModal)
    {
      WeightsInRangeUpdate(courseWeight, number, w);
      courseWeight := courseWeight[number := w];
      savedWeight := Some(courseWeight);
    }

    /**
      `handleExportAddedSelectedCourses`: build the rows and the script and
      show them. If building the rows throws, nothing changes. Whether the
      clipboard accepts the script only changes the message shown.
    */
    method HandleExportAddedSelectedCourses(selected: seq<Course>) returns (exported: Option<seq<ExportEntry>>)
      modifies this
      ensures exported.Some? <==> forall n :: n in old(addedSelectedCourses) ==> n in Numbers(selected)
      ensures exported.Some? ==> ExportData(addedSelectedCourses, selected, courseWeight) == Value(exported.value)
      ensures exported.Some? ==> generatedCode == ExportScript(exported.value) && showExportModal
      ensures exported.None? ==> generatedCode == old(generatedCode) && showExportModal == old(showExportModal)
      ensures addedSelectedCourses == old(addedSelectedCourses) && courseWeight == old(courseWeight)
      ensures savedAdded == old(savedAdded) && savedWeight == old(savedWeight)
    {
      var data := ExportData(addedSelectedCourses, selected, courseWeight);
      if data.Throws? {
        return None;
      }
      ShowScript(data.value);
      exported := Some(data.value);
    }

    /** The `setState` after the clipboard write: the script is kept and the dialog shown. */
    method ShowScript(entries: seq<ExportEntry>)
      modifies this
      ensures generatedCode == ExportScript(entries) && showExportModal
      ensures addedSelectedCourses == old(addedSelectedCourses) && courseWeight == old(courseWeight)
      ensures savedAdded == old(savedAdded) && savedWeight == old(savedWeight)
    {
      generatedCode := ExportScript(entries);
      showExportModal := true;
    }

    /**
      `handleImportCode`: when the plan can be computed, select each
      planned course through the page's handler and store its weight, in
      plan order, and report success; otherwise report failure with
      nothing changed.
    */
    method HandleImportCode(session: AppSession.Session, code: string) returns (ok: bool)
      requires Valid() && session.Valid()
      modifies this, session
      ensures Valid() && session.Valid()
      ensures ok <==> ImportPlan(old(session.courses), code).Value?
      ensures ok ==> var plan := ImportPlan(old(session.courses), code).value;
        session.selectedCourses == SelectAll(old(session.selectedCourses), StepCourses(plan)) &&
        courseWeight == Reweigh(old(courseWeight), plan) &&
        (plan != [] ==> savedWeight == Some(courseWeight) && session.storage == Some(Numbers(session.selectedCourses)))
      ensures !ok ==> session.selectedCourses == old(session.selectedCourses) && courseWeight == old(courseWeight)
      ensures (!ok || ImportPlan(old(session.courses), code).value == []) ==>
        savedWeight == old(savedWeight) && session.storage == old(session.storage)
      ensures session.courses == old(session.courses) && session.searchTimeSlot == old(session.searchTimeSlot)
      ensures addedSelectedCourses == old(addedSelectedCourses) && savedAdded == old(savedAdded)
      ensures generatedCode == old(generatedCode) && showExportModal == old(showExportModal)
    {
      var outcome := ImportPlan(session.courses, code);
      if outcome.Throws? {
        return false;
      }
      ApplyPlan(session, outcome.value);
      return true;
    }

    /** The `forEach` of `handleImportCode`: each step selects its course, then stores its weight. */
    method ApplyPlan(session: AppSession.Session, plan: seq<ImportStep>)
      requires Valid() && session.Valid()
      modifies this, session
      ensures Valid() && session.Valid()
      ensures session.selectedCourses == SelectAll(old(session.selectedCourses), StepCourses(plan))
      ensures courseWeight == Reweigh(old(courseWeight), plan)
      ensures plan != [] ==> savedWeight == Some(courseWeight) && session.storage == Some(Numbers(session.selectedCourses))
      ensures plan == [] ==> savedWeight == old(savedWeight) && session.storage == old(session.storage)
      ensures session.courses == old(session.courses) && session.searchTimeSlot == old(session.searchTimeSlot)
      ensures addedSelectedCourses == old(addedSelectedCourses) && savedAdded == old(savedAdded)
      ensures generatedCode == old(generatedCode) && showExportModal == old(showExportModal)
    {
      var k := 0;
      while k < |plan|
        invariant 0 <= k <= |plan|
        invariant Valid() && session.Valid()
        invariant session.selectedCourses == SelectAll(old(session.selectedCourses), StepCourses(plan[..k]))
        invariant courseWeight == Reweigh(old(courseWeight), plan[..k])
        invariant k > 0 ==> savedWeight == Some(courseWeight) && session.storage == Some(Numbers(session.selectedCourses))
        invariant k == 0 ==> savedWeight == old(savedWeight) && session.storage == old(session.storage)
        invariant session.courses == old(session.courses) && session.searchTimeSlot == old(session.searchTimeSlot)
        invariant addedSelectedCourses == old(addedSelectedCourses) && savedAdded == old(savedAdded)
        invariant generatedCode == old(generatedCode) && showExportModal == old(showExportModal)
      {
        ApplyStep(session, plan, k, old(session.selectedCourses), old(courseWeight));
        k := k + 1;
      }
      assert plan[..k] == plan;
    }

    /** Step `k` of the `forEach`: select `plan[k]`'s course, then store its weight. */
    method ApplyStep(session: AppSession.Session, plan: seq<ImportStep>, k: nat,
                     ghost selected0: seq<Course>, ghost weights0: map<string, Weight>)
      requires Valid() && session.Valid() && k < |plan|
      requires session.selectedCourses == SelectAll(selected0, StepCourses(plan[..k]))
      requires courseWeight == Reweigh(weights0, plan[..k])
      modifies this, session
      ensures Valid() && session.Valid()
      ensures session.selectedCourses == SelectAll(selected0, StepCourses(plan[..k + 1]))
      ensures courseWeight == Reweigh(weights0, plan[..k + 1])
      ensures savedWeight == Some(courseWeight) && session.storage == Some(Numbers(session.selectedCourses))
      ensures session.courses == old(session.courses) && session.searchTimeSlot == old(session.searchTimeSlot)
      ensures addedSelectedCourses == old(addedSelectedCourses) && savedAdded == old(savedAdded)
      ensures generatedCode == old(generatedCode) && showExportModal == old(showExportModal)
    {
      SelectOneMore(selected0, plan, k);
      session.HandleCourseSelect(plan[k].course, true);
      WeighStep(plan, k, weights0);
    }

    /** The weight half of step `k`: store the clamped weight of `plan[k]`. */
    method WeighStep(plan: seq<ImportStep>, k: nat, ghost weights0: map<string, Weight>)
      requires Valid() && k < |plan|
      requires courseWeight == Reweigh(weights0, plan[..k])
      modifies this
      ensures Valid()
      ensures courseWeight == Reweigh(weights0, plan[..k + 1])
      ensures savedWeight == Some(courseWeight)
      ensures addedSelectedCourses == old(addedSelectedCourses) && savedAdded == old(savedAdded)
      ensures generatedCode == old(generatedCode) && showExportModal == old(showExportModal)
    {
      ReweighOneMore(weights0, plan, k);
      HandleCourseWeightChange(plan[k].course, plan[k].weightText);
    }
  }

  /** Selecting the courses of the steps up to `k + 1` is selecting those up to `k`, then step `k`'s. */
  lemma SelectOneMore(selected: seq<Course>, plan: seq<ImportStep>, k: nat)
    requires k < |plan|
    ensures SelectAll(selected, StepCourses(plan[..k + 1])) == Insert(SelectAll(selected, StepCourses(plan[..k])), plan[k].course)
  {
    var cs := StepCourses(plan[..k + 1]);
    assert plan[..k + 1][..k] == plan[..k];
    assert cs[..|cs| - 1] == StepCourses(plan[..k]);
    assert cs[|cs| - 1] == plan[k].course;
  }

  /** Reweighing by the steps up to `k + 1` is reweighing by those up to `k`, then by step `k`. */
  lemma ReweighOneMore(weights: map<string, Weight>, plan: seq<ImportStep>, k: nat)
    requires k < |plan|
    ensures Reweigh(weights, plan[..k + 1]) == Reweigh(weights, plan[..k])[plan[k].course.number := ClampWeight(plan[k].weightText)]
  {
    var p := plan[..k + 1];
    assert p[..|p| - 1] == plan[..k] && p[|p| - 1] == plan[k];
  }
}
