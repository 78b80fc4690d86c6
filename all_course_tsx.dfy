/**
  The course list filter of the client website: a basic keyword filter,
  the eleven advanced filter rows (`{active, value, filterLogic,
  activeOptions}` each) and the optional removal of courses that clash
  with the selection. Every stage is `Array.prototype.filter`.
*/
module AllCourseTsx {
  import opened Outcomes
  import opened Config
  import opened Courses
  import opened Seqs
  import opened JsStrings
  import opened Sorting
  import opened SelectorSetting

  datatype Logic = Equal | Include | Exclude

  /** One advanced filter row. */
  datatype FilterElement = FilterElement(
    active: bool,
    value: string,
    filterLogic: Option<Logic>,
    activeOptions: map<string, bool>)

  type AdvancedFilters = map<FilterName, FilterElement>

  /** `activeOptions[key]` is truthy (a missing key reads as `undefined`). */
  predicate IsOn(opts: map<string, bool>, key: string) {
    key in opts && opts[key]
  }

  /** `filterLogic ?? 'include'` */
  function LogicOrInclude(l: Option<Logic>): Logic {
    if l.Some? then l.value else Include
  }

  // ---------------------------------------------------------------- basic

  /** `basicFilter.toLowerCase().split(/\s+/)` */
  function Keywords(basicFilter: string): seq<string> {
    SplitWs(ToLower(basicFilter))
  }

  /** The keyword occurs in the lowercased Name, Teacher, Programs, Number or Department. */
  predicate MatchesKeyword(c: Course, keyword: string) {
    Includes(ToLower(c.name), keyword) || Includes(ToLower(c.teacher), keyword) ||
    Includes(ToLower(c.programs), keyword) || Includes(ToLower(c.number), keyword) ||
    Includes(ToLower(c.department), keyword)
  }

  predicate PassesBasic(c: Course, basicFilter: string) {
    basicFilter == "" || forall k | k in Keywords(basicFilter) :: MatchesKeyword(c, k)
  }

  function BasicFilter(courses: seq<Course>, basicFilter: string): (r: seq<Course>)
    ensures basicFilter == "" ==> r == courses
    ensures r == Filter(courses, c => PassesBasic(c, basicFilter))
  {
    if basicFilter == "" then
      FilterAll(courses, c => PassesBasic(c, basicFilter));
      courses
    else
      var keywords := Keywords(basicFilter);
      FilterExtensional(courses, c => forall k | k in keywords :: MatchesKeyword(c, k),
        c => PassesBasic(c, basicFilter));
      Filter(courses, c => forall k | k in keywords :: MatchesKeyword(c, k))
  }

  /** A basic filter made only of white space keeps every course (each keyword is empty). */
  lemma BlankBasicFilterKeepsAll(courses: seq<Course>, basicFilter: string)
    requires forall i :: 0 <= i < |basicFilter| ==> IsWhiteSpace(basicFilter[i])
    ensures BasicFilter(courses, basicFilter) == courses
  {
    var lowered := ToLower(basicFilter);
    assert forall c :: c in lowered ==> IsWhiteSpace(c);
    SplitWsAllSpace(lowered);
    forall c | c in courses
      ensures PassesBasic(c, basicFilter)
    {
      IncludesEmpty(ToLower(c.name));
    }
    FilterAll(courses, c => PassesBasic(c, basicFilter));
  }

  // ----------------------------------------------------------------- text

  predicate IsGroupSeparator(ch: char) {
    ch == ',' || ch == '，'
  }

  predicate KeywordMatches(logic: Logic, courseValue: string, keyword: string) {
    match logic
    case Equal => courseValue == keyword
    case Include => Includes(courseValue, keyword)
    case Exclude => !Includes(courseValue, keyword)
  }

  /** One comma group: every white-space separated keyword of the trimmed group matches. */
  predicate GroupMatches(logic: Logic, courseValue: string, group: string) {
    forall k | k in SplitWs(Trim(group)) :: KeywordMatches(logic, courseValue, k)
  }

  /** `applyTextFilter`: some comma group matches. */
  predicate ApplyTextFilter(c: Course, n: FilterName, e: FilterElement)
    requires !n.IsTimeFilter()
  {
    var courseValue := ToLower(c.Get(CourseDataField(n).value));
    var logic := LogicOrInclude(e.filterLogic);
    exists g | g in SplitOn(ToLower(e.value), IsGroupSeparator) :: GroupMatches(logic, courseValue, g)
  }

  lemma {:induction false} ToLowerAppend(a: string, b: string)
    ensures ToLower(a + b) == ToLower(a) + ToLower(b)
  {
    if a != [] {
      assert (a + b)[1..] == a[1..] + b;
      ToLowerAppend(a[1..], b);
    }
  }

  lemma SplitOnAfterPlainGroup(a: string, b: string)
    requires forall i :: 0 <= i < |a| ==> !IsGroupSeparator(a[i])
    ensures SplitOn(a + [','] + b, IsGroupSeparator) == [a] + SplitOn(b, IsGroupSeparator)
  {
    var s := a + [','] + b;
    assert s[|a|] == ',';
    assert FirstIndex(s, IsGroupSeparator) == |a| by {
      FirstIndexBound(s, |a|);
    }
    assert s[..|a|] == a && s[|a| + 1..] == b;
  }

  lemma {:induction false} FirstIndexBound(s: string, j: nat)
    requires j < |s| && IsGroupSeparator(s[j])
    requires forall i :: 0 <= i < j ==> !IsGroupSeparator(s[i])
    ensures FirstIndex(s, IsGroupSeparator) == j
  {
    if j > 0 {
      FirstIndexBound(s[1..], j - 1);
    }
  }

  /** Lowercasing never creates or removes a comma, a full-width comma or white space. */
  lemma ToLowerKeepsSeparators(s: string)
    ensures forall i :: 0 <= i < |s| ==>
      (IsGroupSeparator(ToLower(s)[i]) <==> IsGroupSeparator(s[i])) &&
      (IsWhiteSpace(ToLower(s)[i]) <==> IsWhiteSpace(s[i]))
  {
  }

  /** Some group of `[first] + rest` matches iff `first` does or some group of `rest` does. */
  lemma ExistsGroupCons(logic: Logic, courseValue: string, first: string, rest: seq<string>)
    ensures (exists g | g in [first] + rest :: GroupMatches(logic, courseValue, g)) <==>
      GroupMatches(logic, courseValue, first) || exists g | g in rest :: GroupMatches(logic, courseValue, g)
  {
    if exists g | g in [first] + rest :: GroupMatches(logic, courseValue, g) {
      var g :| g in [first] + rest && GroupMatches(logic, courseValue, g);
      if g != first {
        assert g in rest;
      }
    }
    if GroupMatches(logic, courseValue, first) {
      assert first in [first] + rest;
    }
    if exists g | g in rest :: GroupMatches(logic, courseValue, g) {
      var g :| g in rest && GroupMatches(logic, courseValue, g);
      assert g in [first] + rest;
    }
  }

  /** Groups separated by a comma are alternatives: the filter passes iff either part passes. */
  lemma TextFilterCommaIsOr(c: Course, n: FilterName, e: FilterElement, v1: string, v2: string)
    requires !n.IsTimeFilter()
    requires forall i :: 0 <= i < |v1| ==> !IsGroupSeparator(v1[i])
    ensures ApplyTextFilter(c, n, e.(value := v1 + "," + v2)) <==>
      ApplyTextFilter(c, n, e.(value := v1)) || ApplyTextFilter(c, n, e.(value := v2))
  {
    var courseValue := ToLower(c.Get(CourseDataField(n).value));
    var logic := LogicOrInclude(e.filterLogic);
    var l1, l2 := ToLower(v1), ToLower(v2);
    assert ToLower(v1 + "," + v2) == l1 + [','] + l2 by {
      ToLowerAppend(v1 + ",", v2);
      ToLowerAppend(v1, ",");
    }
    ToLowerKeepsSeparators(v1);
    SplitOnAfterPlainGroup(l1, l2);
    SplitOnNoSep(l1, IsGroupSeparator);
    ExistsGroupCons(logic, courseValue, l1, SplitOn(l2, IsGroupSeparator));
    ExistsGroupCons(logic, courseValue, l1, []);
  }

  /** A single keyword (no comma, no white space) is tested according to the logic. */
  lemma TextFilterSingleKeyword(c: Course, n: FilterName, e: FilterElement)
    requires !n.IsTimeFilter()
    requires forall i :: 0 <= i < |e.value| ==> !IsGroupSeparator(e.value[i]) && !IsWhiteSpace(e.value[i])
    ensures var courseValue := ToLower(c.Get(CourseDataField(n).value));
      var keyword := ToLower(e.value);
      ApplyTextFilter(c, n, e) <==>
        match LogicOrInclude(e.filterLogic)
        case Equal => courseValue == keyword
        case Include => Includes(courseValue, keyword)
        case Exclude => !Includes(courseValue, keyword)
  {
    var courseValue := ToLower(c.Get(CourseDataField(n).value));
    var logic := LogicOrInclude(e.filterLogic);
    var keyword := ToLower(e.value);
    SingleKeywordSplits(e.value);
    SingleGroupMatches(logic, courseValue, keyword);
  }

  /** A lower-cased single keyword is one comma group holding one keyword. */
  lemma SingleKeywordSplits(v: string)
    requires forall i :: 0 <= i < |v| ==> !IsGroupSeparator(v[i]) && !IsWhiteSpace(v[i])
    ensures SplitOn(ToLower(v), IsGroupSeparator) == [ToLower(v)]
    ensures Trim(ToLower(v)) == ToLower(v) && SplitWs(ToLower(v)) == [ToLower(v)]
    ensures SplitWs(Trim(ToLower(v))) == [ToLower(v)]
  {
    var keyword := ToLower(v);
    ToLowerKeepsSeparators(v);
    assert forall i :: 0 <= i < |keyword| ==> !IsGroupSeparator(keyword[i]) && !IsWhiteSpace(keyword[i]);
    SplitOnNoSep(keyword, IsGroupSeparator);
    TrimNoSpace(keyword);
    SplitWsNoSpace(keyword);
  }

  /** With one group of one keyword, some group matches iff that keyword does. */
  lemma SingleGroupMatches(logic: Logic, courseValue: string, keyword: string)
    requires Trim(keyword) == keyword && SplitWs(keyword) == [keyword]
    ensures (exists g | g in [keyword] :: GroupMatches(logic, courseValue, g)) <==> KeywordMatches(logic, courseValue, keyword)
  {
    OneKeywordGroup(logic, courseValue, keyword, keyword);
    ExistsInSingleton(logic, courseValue, keyword);
  }

  /** A group whose only keyword is itself matches iff that keyword does. */
  lemma OneKeywordGroup(logic: Logic, courseValue: string, group: string, keyword: string)
    requires SplitWs(Trim(group)) == [keyword]
    ensures GroupMatches(logic, courseValue, group) <==> KeywordMatches(logic, courseValue, keyword)
  {
    assert keyword in SplitWs(Trim(group)) by {
      assert keyword in [keyword];
    }
    forall k | k in SplitWs(Trim(group))
      ensures k == keyword
    {
      InSingleton(k, keyword);
    }
  }

  /** Some group of a one-group list matches iff that group does. */
  lemma ExistsInSingleton(logic: Logic, courseValue: string, group: string)
    ensures (exists g | g in [group] :: GroupMatches(logic, courseValue, g)) <==> GroupMatches(logic, courseValue, group)
  {
    if exists g | g in [group] :: GroupMatches(logic, courseValue, g) {
      var g :| g in [group] && GroupMatches(logic, courseValue, g);
      InSingleton(g, group);
    }
    if GroupMatches(logic, courseValue, group) {
      assert group in [group];
    }
  }

  lemma InSingleton<T>(g: T, x: T)
    requires g in [x]
    ensures g == x
  {
  }

  // ----------------------------------------------------------------- time

  /** Some day is on in the options and the course meets that day. */
  predicate WeekdaysMatched(c: Course, opts: map<string, bool>) {
    exists d | d in Weekdays :: IsOn(opts, d.Key()) && c.Periods(d) != ""
  }

  /** `activeOptions[key] === b`: a missing key is `undefined`, which equals no boolean. */
  predicate StrictlyEquals(opts: map<string, bool>, key: string, b: bool) {
    key in opts && opts[key] == b
  }

  predicate WeekdaysEqual(c: Course, opts: map<string, bool>) {
    forall d | d in Weekdays :: StrictlyEquals(opts, d.Key(), c.Periods(d) != "")
  }

  /** The course meets on `d` and one of that day's periods is on. */
  predicate DayPeriodsMatched(c: Course, d: Weekday, opts: map<string, bool>) {
    c.Periods(d) != "" && exists p | p in c.Periods(d) :: IsOn(opts, [p])
  }

  predicate PeriodsMatched(c: Course, opts: map<string, bool>) {
    exists d | d in Weekdays :: DayPeriodsMatched(c, d, opts)
  }

  /** `s.split('')`: the one-character strings of `s`. */
  function Chars(s: string): (r: seq<string>)
    ensures |r| == |s| && forall i :: 0 <= i < |s| ==> r[i] == [s[i]]
  {
    if s == [] then [] else [[s[0]]] + Chars(s[1..])
  }

  /** `parts.join('')` */
  function Concat(parts: seq<string>): string {
    if parts == [] then "" else parts[0] + Concat(parts[1..])
  }

  predicate CharsAscending(s: string) {
    forall i, j :: 0 <= i < j < |s| ==> s[i] <= s[j]
  }

  function InsertChar(x: char, s: string): (r: string)
    requires CharsAscending(s)
    ensures CharsAscending(r)
    ensures multiset(r) == multiset(s) + multiset{x}
  {
    if s == [] then [x]
    else if !(s[0] < x) then
      AscendingCons(x, s);
      assert multiset([x] + s) == multiset{x} + multiset(s);
      [x] + s
    else
      AscendingTail(s);
      var t := InsertChar(x, s[1..]);
      LowerBoundKept(s[0], x, s[1..], t);
      AscendingCons(s[0], t);
      assert multiset([s[0]] + t) == multiset{s[0]} + multiset(t);
      [s[0]] + t
  }

  lemma AscendingTail(s: string)
    requires CharsAscending(s) && s != []
    ensures CharsAscending(s[1..]) && forall k :: 0 <= k < |s[1..]| ==> s[0] <= s[1..][k]
    ensures multiset(s) == multiset{s[0]} + multiset(s[1..])
  {
    assert s == [s[0]] + s[1..];
  }

  lemma AscendingCharsSorted(s: string)
    requires CharsAscending(s)
    ensures Sorted(Chars(s))
  {
    var cs := Chars(s);
    forall i, j | 0 <= i < j < |cs| ensures !LexLess(cs[j], cs[i]) {
      LexLessSingles(s[j], s[i]);
    }
  }

  lemma AscendingCons(y: char, t: string)
    requires CharsAscending(t) && (t != [] ==> y <= t[0])
    ensures CharsAscending([y] + t)
  {
    var r := [y] + t;
    forall i, j | 0 <= i < j < |r| ensures r[i] <= r[j] {
      assert r[j] == t[j - 1];
      if i > 0 { assert r[i] == t[i - 1]; }
    }
  }

  lemma LowerBoundKept(y: char, x: char, s: string, t: string)
    requires y <= x && forall k :: 0 <= k < |s| ==> y <= s[k]
    requires multiset(t) == multiset(s) + multiset{x}
    ensures t != [] ==> y <= t[0]
  {
    if t != [] {
      assert t[0] in multiset(t);
      if t[0] != x {
        assert t[0] in multiset(s);
      }
    }
  }

  /** The characters of `s` in ascending code-point order. */
  function SortChars(s: string): (r: string)
    ensures CharsAscending(r)
    ensures multiset(r) == multiset(s)
  {
    if s == [] then []
    else
      assert s == [s[0]] + s[1..];
      InsertChar(s[0], SortChars(s[1..]))
  }

  lemma LexLessSingles(a: char, b: char)
    ensures LexLess([a], [b]) <==> a < b
  {
    assert [a][1..] == [] && [b][1..] == [];
  }

  lemma {:induction false} InsertCharAgrees(x: char, s: string)
    requires CharsAscending(s)
    ensures Chars(InsertChar(x, s)) == InsertSorted([x], Chars(s))
  {
    if s != [] {
      if s[0] < x {
        AscendingTail(s);
        AscendingCharsSorted(s);
        AscendingCharsSorted(s[1..]);
        InsertCharAgrees(x, s[1..]);
        InsertCharLater(x, s);
      } else {
        InsertCharFront(x, s);
      }
    }
  }

  /** The step of `InsertCharAgrees` where `x` goes before the first character. */
  lemma InsertCharFront(x: char, s: string)
    requires CharsAscending(s) && s != [] && !(s[0] < x)
    ensures Chars(InsertChar(x, s)) == InsertSorted([x], Chars(s))
  {
    LexLessSingles(s[0], x);
    assert Chars(s)[0] == [s[0]];
    assert Chars([x] + s) == [[x]] + Chars(s) by {
      assert ([x] + s)[1..] == s;
    }
  }

  /** The step of `InsertCharAgrees` where `x` goes after the first character. */
  lemma InsertCharLater(x: char, s: string)
    requires CharsAscending(s) && Sorted(Chars(s)) && s != [] && s[0] < x
    requires CharsAscending(s[1..]) && Sorted(Chars(s[1..]))
    requires Chars(InsertChar(x, s[1..])) == InsertSorted([x], Chars(s[1..]))
    ensures Chars(InsertChar(x, s)) == InsertSorted([x], Chars(s))
  {
    LexLessSingles(s[0], x);
    assert Chars(s)[0] == [s[0]];
    assert Chars(s)[1..] == Chars(s[1..]);
    var t := InsertChar(x, s[1..]);
    assert Chars([s[0]] + t) == [[s[0]]] + Chars(t) by {
      assert ([s[0]] + t)[1..] == t;
    }
  }

  lemma {:induction false} CharsConcat(s: string)
    ensures Concat(Chars(s)) == s
  {
    if s != [] {
      CharsConcat(s[1..]);
      assert Chars(s)[1..] == Chars(s[1..]);
    }
  }

  /** `s.split('').sort().join('')`: the characters in ascending order. */
  function SortedChars(s: string): string {
    SortChars(s)
  }

  /** Sorting the one-character strings and joining them is sorting the characters. */
  lemma {:induction false} SortedCharsIsStringSort(s: string)
    ensures SortedChars(s) == Concat(SortStrings(Chars(s)))
  {
    SortCharsAgrees(s);
    CharsConcat(SortChars(s));
  }

  lemma {:induction false} SortCharsAgrees(s: string)
    ensures Chars(SortChars(s)) == SortStrings(Chars(s))
  {
    if s != [] {
      SortCharsAgrees(s[1..]);
      assert Chars(s)[1..] == Chars(s[1..]);
      InsertCharAgrees(s[0], SortChars(s[1..]));
    }
  }

  /** `Object.keys(activeOptions).filter(k => activeOptions[k]).sort().join('')` */
  function FilterPeriods(opts: map<string, bool>): string {
    Concat(SortedSet(set k | k in opts && opts[k]))
  }

  /** On day `d` the course either does not meet or meets exactly at `filterPeriods`. */
  predicate DayPeriodsEqual(c: Course, d: Weekday, filterPeriods: string) {
    c.Periods(d) != "" ==> SameSortedPeriods(c.Periods(d), filterPeriods)
  }

  /** `periods.split('').sort().join('') === filterPeriods` */
  predicate SameSortedPeriods(periods: string, filterPeriods: string) {
    SortedChars(periods) == filterPeriods
  }

  predicate PeriodsEqual(c: Course, opts: map<string, bool>) {
    forall d | d in Weekdays :: DayPeriodsEqual(c, d, FilterPeriods(opts))
  }

  /** `applyTimeFilter` on 星期 and 節次 (its only callers' names). */
  predicate ApplyTimeFilter(c: Course, n: FilterName, e: FilterElement)
    requires n.IsTimeFilter()
  {
    var logic := LogicOrInclude(e.filterLogic);
    if n == ByWeekday then
      if logic != Equal then
        (if logic == Include then WeekdaysMatched(c, e.activeOptions) else !WeekdaysMatched(c, e.activeOptions))
      else WeekdaysEqual(c, e.activeOptions)
    else
      if logic != Equal then
        (if logic == Include then PeriodsMatched(c, e.activeOptions) else !PeriodsMatched(c, e.activeOptions))
      else PeriodsEqual(c, e.activeOptions)
  }

  /** The 節次 include/exclude loop: `periodsMatched ||= …` over the meeting days. */
  method PeriodsMatchedLoop(c: Course, opts: map<string, bool>) returns (periodsMatched: bool)
    ensures periodsMatched <==> PeriodsMatched(c, opts)
  {
    periodsMatched := false;
    var i := 0;
    while i < |Weekdays|
      invariant 0 <= i <= |Weekdays|
      invariant periodsMatched <==> exists k :: 0 <= k < i && DayPeriodsMatched(c, Weekdays[k], opts)
    {
      var day := Weekdays[i];
      if c.Periods(day) != "" {
        var periods := Chars(c.Periods(day));
        periodsMatched := periodsMatched || exists p | p in periods :: IsOn(opts, p);
        assert (exists p | p in periods :: IsOn(opts, p)) <==> (exists p | p in c.Periods(day) :: IsOn(opts, [p])) by {
          forall p | p in c.Periods(day) && IsOn(opts, [p]) ensures [p] in periods {
            var j :| 0 <= j < |c.Periods(day)| && c.Periods(day)[j] == p;
            assert periods[j] == [p];
          }
        }
      }
      i := i + 1;
    }
  }

  /** The 節次 equal loop: `periodsMatched &&= sorted(day) === filterPeriods` over the meeting days. */
  method PeriodsEqualLoop(c: Course, opts: map<string, bool>) returns (periodsMatched: bool)
    ensures periodsMatched <==> PeriodsEqual(c, opts)
  {
    periodsMatched := true;
    var filterPeriods := FilterPeriods(opts);
    var i := 0;
    while i < |Weekdays|
      invariant 0 <= i <= |Weekdays|
      invariant periodsMatched == DaysEqualUpTo(c, filterPeriods, i)
    {
      var day := Weekdays[i];
      var periods := c.Periods(day);
      if periods != "" {
        periodsMatched := periodsMatched && SameSortedPeriods(periods, filterPeriods);
      }
      i := i + 1;
    }
    DaysEqualUpToAll(c, filterPeriods, |Weekdays|);
    forall d | d in Weekdays ensures periodsMatched ==> DayPeriodsEqual(c, d, filterPeriods) {
      var k :| 0 <= k < |Weekdays| && Weekdays[k] == d;
    }
  }

  /** The first `i` weekdays all satisfy `DayPeriodsEqual`. */
  predicate DaysEqualUpTo(c: Course, filterPeriods: string, i: nat)
    requires i <= |Weekdays|
  {
    i == 0 || (DaysEqualUpTo(c, filterPeriods, i - 1) && DayPeriodsEqual(c, Weekdays[i - 1], filterPeriods))
  }

  lemma {:induction false} DaysEqualUpToAll(c: Course, filterPeriods: string, i: nat)
    requires i <= |Weekdays|
    ensures DaysEqualUpTo(c, filterPeriods, i) <==> forall k :: 0 <= k < i ==> DayPeriodsEqual(c, Weekdays[k], filterPeriods)
  {
    if i > 0 {
      DaysEqualUpToAll(c, filterPeriods, i - 1);
    }
  }

  /** In 星期 equal mode a day absent from `activeOptions` rejects every course. */
  lemma WeekdayEqualMissingDayFails(c: Course, opts: map<string, bool>, d: Weekday)
    requires d.Key() !in opts
    ensures !WeekdaysEqual(c, opts)
  {
    WeekdaysComplete();
  }

  /**
    With options that are never `false` (what the row handlers produce),
    星期 equal passes only when all seven days are on and the course meets
    on all seven.
  */
  lemma WeekdayEqualWithTrueOnlyOptions(c: Course, opts: map<string, bool>)
    requires forall k | k in opts :: opts[k]
    ensures WeekdaysEqual(c, opts) <==> forall d: Weekday :: d.Key() in opts && c.Periods(d) != ""
  {
    WeekdaysComplete();
  }

  /** 星期 exclude is the negation of 星期 include. */
  lemma WeekdayExcludeNegatesInclude(c: Course, e: FilterElement)
    ensures ApplyTimeFilter(c, ByWeekday, e.(filterLogic := Some(Exclude))) ==
      !ApplyTimeFilter(c, ByWeekday, e.(filterLogic := Some(Include)))
  {
  }

  /** 節次 equal holds vacuously for a course that never meets; 節次 include fails for it. */
  lemma PeriodsOfNonMeetingCourse(c: Course, opts: map<string, bool>)
    requires !c.Meets()
    ensures PeriodsEqual(c, opts)
    ensures !PeriodsMatched(c, opts)
  {
    forall d | d in Weekdays ensures c.Periods(d) == "" { }
  }

  /** 節次 equal with 5 and 6 on: a course meeting at "65" on Monday only passes, one at "567" does not. */
  lemma PeriodsEqualExample(c: Course, c2: Course)
    requires c.monday == "65" && c2.monday == "567"
    requires forall d | d in Weekdays && d != Monday :: c.Periods(d) == "" && c2.Periods(d) == ""
    ensures PeriodsEqual(c, map["5" := true, "6" := true])
    ensures !PeriodsEqual(c2, map["5" := true, "6" := true])
  {
    var opts := map["5" := true, "6" := true];
    FilterPeriodsFiveSix();
    SixFiveSorted();
    FiveSixSevenNotFiveSix();
    assert c.Periods(Monday) == "65" && c2.Periods(Monday) == "567";
    assert Monday in Weekdays && !DayPeriodsEqual(c2, Monday, FilterPeriods(opts));
  }

  lemma SixFiveSorted()
    ensures SortedChars("65") == "56"
  {
    var s := "65";
    assert SortChars(s[1..]) == "5" by {
      assert s[1..] == "5";
    }
  }

  lemma FiveSixSevenNotFiveSix()
    ensures SortedChars("567") != "56"
  {
    var s := "567";
    assert |multiset(SortChars(s))| == |multiset(s)|;
  }

  lemma FilterPeriodsFiveSix()
    ensures FilterPeriods(map["5" := true, "6" := true]) == "56"
  {
    var opts := map["5" := true, "6" := true];
    assert (set k | k in opts && opts[k]) == {"5", "6"};
    assert LexLess("5", "6");
    assert Least({"5", "6"}) == "5";
    assert {"5", "6"} - {"5"} == {"6"};
    assert Least({"6"}) == "6";
    assert {"6"} - {"6"} == {};
    assert SortedSet({"5", "6"}) == ["5", "6"];
    assert Concat(["5", "6"]) == "56" by {
      assert ["5", "6"][1..] == ["6"];
      assert Concat(["6"]) == "6";
    }
  }

  // --------------------------------------------------------------- option

  /** The field value equals a key that is on. */
  predicate OptionMatched(c: Course, n: FilterName, opts: map<string, bool>)
    requires !n.IsTimeFilter()
  {
    exists k | k in opts :: opts[k] && c.Get(CourseDataField(n).value) == k
  }

  /**
    `applyOptionFilter`: `isInclude` is the string 'include' or
    'exclude', and the result is `isInclude ? matched : !matched`.
  */
  predicate ApplyOptionFilter(c: Course, n: FilterName, e: FilterElement)
    requires !n.IsTimeFilter()
  {
    var isInclude := if e.filterLogic == Some(Include) then "include" else "exclude";
    var matched := OptionMatched(c, n, e.activeOptions);
    if isInclude != "" then matched else !matched
  }

  /** Both strings are truthy, so the option filter is a plain membership test whatever the logic. */
  lemma OptionFilterIgnoresLogic(c: Course, n: FilterName, e: FilterElement, logic: Option<Logic>)
    requires !n.IsTimeFilter()
    ensures ApplyOptionFilter(c, n, e.(filterLogic := logic)) == OptionMatched(c, n, e.activeOptions)
  {
    var isInclude := if logic == Some(Include) then "include" else "exclude";
    assert isInclude != "" by {
      assert |isInclude| == 7;
    }
  }

  // ------------------------------------------------------------- pipeline

  /** One row of `applyAdvancedFilters`. */
  predicate EntryPasses(c: Course, n: FilterName, e: FilterElement) {
    if e.value != "" && !n.IsTimeFilter() then ApplyTextFilter(c, n, e)
    else if e.active then
      (if n.IsTimeFilter() then ApplyTimeFilter(c, n, e) else ApplyOptionFilter(c, n, e))
    else true
  }

  predicate PassesAdvanced(c: Course, filters: AdvancedFilters) {
    forall n | n in filters :: EntryPasses(c, n, filters[n])
  }

  function ApplyAdvancedFilters(courses: seq<Course>, filters: AdvancedFilters): (r: seq<Course>)
    ensures forall c :: c in r <==> c in courses && PassesAdvanced(c, filters)
  {
    Filter(courses, c => PassesAdvanced(c, filters))
  }

  /** Rows that hold no text (or are time rows) and are inactive keep every course. */
  lemma InertFiltersKeepAll(courses: seq<Course>, filters: AdvancedFilters)
    requires forall n | n in filters :: (filters[n].value == "" || n.IsTimeFilter()) && !filters[n].active
    ensures ApplyAdvancedFilters(courses, filters) == courses
  {
    FilterAll(courses, c => PassesAdvanced(c, filters));
  }

  /** `filterOutConflictCourses` keeps a course when it is selected or clashes with nothing selected. */
  predicate KeptBesideSelection(c: Course, selected: seq<Course>) {
    c in selected || !ConflictsWithAny(c, selected)
  }

  function FilterOutConflictCourses(courses: seq<Course>, selected: seq<Course>): (r: seq<Course>)
    ensures forall c | c in courses && c in selected :: c in r
    ensures forall c | c in courses && c !in selected :: c in r <==> !ConflictsWithAny(c, selected)
    ensures forall c | c in r :: c in courses
  {
    Filter(courses, c => KeptBesideSelection(c, selected))
  }

  /** Everything `getFilteredCourses` asks of one course. */
  predicate Accepts(c: Course, basicFilter: string, displayConflictCourses: bool,
                    filters: AdvancedFilters, selected: seq<Course>) {
    PassesBasic(c, basicFilter) && PassesAdvanced(c, filters) &&
    (displayConflictCourses || KeptBesideSelection(c, selected))
  }

  /** `getFilteredCourses`: the three stages in sequence. */
  function GetFilteredCourses(courses: seq<Course>, basicFilter: string, displayConflictCourses: bool,
                              filters: AdvancedFilters, selected: seq<Course>): (r: seq<Course>)
    ensures forall c :: c in r <==> c in courses && Accepts(c, basicFilter, displayConflictCourses, filters, selected)
  {
    var afterAdvanced := ApplyAdvancedFilters(BasicFilter(courses, basicFilter), filters);
    if displayConflictCourses then afterAdvanced else FilterOutConflictCourses(afterAdvanced, selected)
  }

  /** The basic and the advanced stage together are one filter by both tests. */
  lemma BasicThenAdvanced(courses: seq<Course>, basicFilter: string, filters: AdvancedFilters)
    ensures ApplyAdvancedFilters(BasicFilter(courses, basicFilter), filters) ==
      Filter(courses, c => PassesBasic(c, basicFilter) && PassesAdvanced(c, filters))
  {
    var pb := (c: Course) => PassesBasic(c, basicFilter);
    var pa := (c: Course) => PassesAdvanced(c, filters);
    var afterBasic := BasicFilter(courses, basicFilter);
    FilterExtensional(courses, c => PassesBasic(c, basicFilter), pb);
    FilterExtensional(afterBasic, c => PassesAdvanced(c, filters), pa);
    FilterFilter(courses, pb, pa, c => PassesBasic(c, basicFilter) && PassesAdvanced(c, filters));
  }

  /** The three stages amount to one filter by `Accepts`, so order and multiplicity are those of the catalogue. */
  lemma GetFilteredIsOneFilter(courses: seq<Course>, basicFilter: string, displayConflictCourses: bool,
                               filters: AdvancedFilters, selected: seq<Course>)
    ensures GetFilteredCourses(courses, basicFilter, displayConflictCourses, filters, selected) ==
      Filter(courses, c => Accepts(c, basicFilter, displayConflictCourses, filters, selected))
  {
    var both := (c: Course) => PassesBasic(c, basicFilter) && PassesAdvanced(c, filters);
    var accepts := (c: Course) => Accepts(c, basicFilter, displayConflictCourses, filters, selected);
    var afterAdvanced := ApplyAdvancedFilters(BasicFilter(courses, basicFilter), filters);
    BasicThenAdvanced(courses, basicFilter, filters);
    FilterExtensional(courses, c => PassesBasic(c, basicFilter) && PassesAdvanced(c, filters), both);
    if displayConflictCourses {
      FilterExtensional(courses, both, accepts);
    } else {
      var pk := (c: Course) => KeptBesideSelection(c, selected);
      FilterExtensional(afterAdvanced, c => KeptBesideSelection(c, selected), pk);
      FilterFilter(courses, both, pk, accepts);
    }
  }

  /** The filtered list is an order-preserving subsequence of the catalogue. */
  lemma GetFilteredIsSubsequence(courses: seq<Course>, basicFilter: string, displayConflictCourses: bool,
                                 filters: AdvancedFilters, selected: seq<Course>)
    ensures IsSubsequence(GetFilteredCourses(courses, basicFilter, displayConflictCourses, filters, selected), courses)
  {
    GetFilteredIsOneFilter(courses, basicFilter, displayConflictCourses, filters, selected);
    FilterIsSubsequence(courses, c => Accepts(c, basicFilter, displayConflictCourses, filters, selected));
  }

  /** Filtering the filtered list again with the same settings changes nothing. */
  lemma GetFilteredIdempotent(courses: seq<Course>, basicFilter: string, displayConflictCourses: bool,
                              filters: AdvancedFilters, selected: seq<Course>)
    ensures var once := GetFilteredCourses(courses, basicFilter, displayConflictCourses, filters, selected);
      GetFilteredCourses(once, basicFilter, displayConflictCourses, filters, selected) == once
  {
    var once := GetFilteredCourses(courses, basicFilter, displayConflictCourses, filters, selected);
    GetFilteredIsOneFilter(courses, basicFilter, displayConflictCourses, filters, selected);
    GetFilteredIsOneFilter(once, basicFilter, displayConflictCourses, filters, selected);
    FilterIdempotent(courses, c => Accepts(c, basicFilter, displayConflictCourses, filters, selected));
  }
}
