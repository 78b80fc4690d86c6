/**
  The course list filter of the older application generation. A filter
  row is one flat object: `active`, an optional boolean `include`, an
  optional text `value`, and one boolean flag per selected option (a
  weekday key, a period character or a field value). `Object.entries`
  visits the rows in insertion order and `every` stops at the first
  failing row, so a row that throws only matters when it is reached.
*/
module AllCourseJsx {
  import opened Outcomes
  import opened Config
  import opened Courses
  import opened Seqs
  import opened JsStrings
  import opened SelectorSetting
  import AllCourseTsx

  /**
    One flat filter row: the keys `active`, `include` (read by the
    filters), `filterLogic` (written by the row editor), `value`, and in
    `flags` every other key, one per option. Option names are course
    field values, weekday keys and period codes, never one of the four
    reserved keys.
  */
  datatype FlatFilter = FlatFilter(
    active: Option<bool>,
    includeFlag: Option<bool>,
    filterLogic: Option<AllCourseTsx.Logic>,
    value: Option<string>,
    flags: map<string, bool>)

  /** `Object.entries(filters)`, in insertion order. */
  type FilterEntries = seq<(FilterName, FlatFilter)>

  /** `filter.include === undefined ? true : filter.include` */
  function IsInclude(f: FlatFilter): bool {
    if f.includeFlag.Some? then f.includeFlag.value else true
  }

  /**
    `applyTextFilter`. The time rows have no course field, so
    `courseValue` is `undefined` and the first `includes` call throws.
  */
  function ApplyTextFilter(c: Course, n: FilterName, value: string, isInclude: bool): (r: Outcome<bool>)
    ensures r.Throws? <==> n.IsTimeFilter()
    ensures r.Value? ==> (r.value <==> AllCourseTsx.ApplyTextFilter(c, n,
      AllCourseTsx.FilterElement(true, value,
        Some(if isInclude then AllCourseTsx.Include else AllCourseTsx.Exclude), map[])))
  {
    if n.IsTimeFilter() then Throws
    else
      var courseValue := ToLower(c.Get(CourseDataField(n).value));
      var logic := if isInclude then AllCourseTsx.Include else AllCourseTsx.Exclude;
      Value(exists g | g in SplitOn(ToLower(value), AllCourseTsx.IsGroupSeparator) ::
        AllCourseTsx.GroupMatches(logic, courseValue, g))
  }

  /** `applyTimeFilter`: include means some match, exclude its negation; other names throw. */
  function ApplyTimeFilter(c: Course, n: FilterName, f: FlatFilter): (r: Outcome<bool>)
    ensures r.Throws? <==> !n.IsTimeFilter()
    ensures n == ByWeekday ==> r == Value(IsInclude(f) == AllCourseTsx.WeekdaysMatched(c, f.flags))
    ensures n == ByPeriod ==> r == Value(IsInclude(f) == AllCourseTsx.PeriodsMatched(c, f.flags))
  {
    var isInclude := IsInclude(f);
    if n == ByWeekday then
      var daysMatched := AllCourseTsx.WeekdaysMatched(c, f.flags);
      Value(if isInclude then daysMatched else !daysMatched)
    else if n == ByPeriod then
      var periodsMatched := AllCourseTsx.PeriodsMatched(c, f.flags);
      Value(if isInclude then periodsMatched else !periodsMatched)
    else Throws
  }

  /**
    Some scanned key is truthy and equals the field value. The scan skips
    `active` and `include` only: a present `filterLogic` (a non-empty
    mode string) counts as a truthy key named "filterLogic", and `value`
    is empty or absent whenever the option filter runs.
  */
  predicate OptionMatched(c: Course, n: FilterName, f: FlatFilter)
    requires !n.IsTimeFilter()
  {
    var courseValue := c.Get(CourseDataField(n).value);
    (exists k | k in f.flags :: f.flags[k] && courseValue == k) ||
    (f.filterLogic.Some? && courseValue == "filterLogic")
  }

  /** `applyOptionFilter`: a membership test, inverted only when `include` is `false`. */
  function ApplyOptionFilter(c: Course, n: FilterName, f: FlatFilter): (r: bool)
    requires !n.IsTimeFilter()
    ensures f.includeFlag != Some(false) ==> (r <==> OptionMatched(c, n, f))
    ensures f.includeFlag == Some(false) ==> (r <==> !OptionMatched(c, n, f))
  {
    var matched := OptionMatched(c, n, f);
    if IsInclude(f) then matched else !matched
  }

  /** One row of `applyAdvancedFilters`. */
  function EntryOutcome(c: Course, n: FilterName, f: FlatFilter): Outcome<bool> {
    if f.value.Some? && f.value.value != "" then ApplyTextFilter(c, n, f.value.value, IsInclude(f))
    else if f.active == Some(true) then
      (if n == ByWeekday || n == ByPeriod then ApplyTimeFilter(c, n, f) else Value(ApplyOptionFilter(c, n, f)))
    else Value(true)
  }

  /** `entries.every(...)`, stopping at the first `false` and propagating a throw. */
  function Every(c: Course, entries: FilterEntries): (r: Outcome<bool>)
    ensures r == Value(true) <==> forall i :: 0 <= i < |entries| ==> EntryOutcome(c, entries[i].0, entries[i].1) == Value(true)
  {
    if entries == [] then Value(true)
    else
      match EntryOutcome(c, entries[0].0, entries[0].1)
      case Throws => Throws
      case Value(ok) =>
        if !ok then Value(false)
        else
          var rest := Every(c, entries[1..]);
          assert forall i :: 0 < i < |entries| ==> entries[i] == entries[1..][i - 1];
          rest
  }

  /** A row that holds text on 星期 or 節次 throws, unless an earlier row already failed. */
  lemma TextOnTimeRowThrows(c: Course, entries: FilterEntries, i: nat)
    requires i < |entries| && entries[i].0.IsTimeFilter()
    requires entries[i].1.value.Some? && entries[i].1.value.value != ""
    requires forall k :: 0 <= k < i ==> EntryOutcome(c, entries[k].0, entries[k].1) == Value(true)
    ensures Every(c, entries).Throws?
  {
    EveryReachesRow(c, entries, i);
  }

  lemma {:induction false} EveryReachesRow(c: Course, entries: FilterEntries, i: nat)
    requires i < |entries|
    requires forall k :: 0 <= k < i ==> EntryOutcome(c, entries[k].0, entries[k].1) == Value(true)
    ensures EntryOutcome(c, entries[i].0, entries[i].1).Throws? ==> Every(c, entries).Throws?
  {
    if i > 0 {
      EveryReachesRow(c, entries[1..], i - 1);
    }
  }

  /** A failing row stops `every` before a later row could throw. */
  lemma FailingRowShieldsLaterRows(c: Course, first: (FilterName, FlatFilter), rest: FilterEntries)
    requires EntryOutcome(c, first.0, first.1) == Value(false)
    ensures Every(c, [first] + rest) == Value(false)
  {
  }

  /** Rows without text on a time row never throw. */
  predicate WellFormedEntries(entries: FilterEntries) {
    forall i :: 0 <= i < |entries| ==> entries[i].0.IsTimeFilter() ==> entries[i].1.value.None? || entries[i].1.value.value == ""
  }

  lemma {:induction false} WellFormedNeverThrows(c: Course, entries: FilterEntries)
    requires WellFormedEntries(entries)
    ensures Every(c, entries).Value?
  {
    if entries != [] {
      assert forall i :: 0 <= i < |entries| - 1 ==> entries[1..][i] == entries[i + 1];
      WellFormedNeverThrows(c, entries[1..]);
    }
  }

  /** `courses.filter(pred)`, where a throwing predicate aborts the whole filter. */
  function ApplyAdvancedFilters(courses: seq<Course>, entries: FilterEntries): (r: Outcome<seq<Course>>)
    ensures r.Throws? <==> exists c | c in courses :: Every(c, entries).Throws?
    ensures r.Value? ==> IsSubsequence(r.value, courses)
    ensures r.Value? ==> forall c :: c in r.value <==> c in courses && Every(c, entries) == Value(true)
  {
    if courses == [] then Value([])
    else
      var head := Every(courses[0], entries);
      var tail := ApplyAdvancedFilters(courses[1..], entries);
      assert forall c | c in courses[1..] :: c in courses;
      assert courses[0] in courses;
      assert tail.Throws? ==> exists c | c in courses :: Every(c, entries).Throws? by {
        if tail.Throws? {
          var w :| w in courses[1..] && Every(w, entries).Throws?;
          assert w in courses;
        }
      }
      if head.Throws? || tail.Throws? then Throws
      else if head.value then Value([courses[0]] + tail.value)
      else Value(tail.value)
  }

  /** `getFilteredCourses` of the older generation. */
  function GetFilteredCourses(courses: seq<Course>, basicFilter: string, displayConflictCourses: bool,
                              entries: FilterEntries, selected: seq<Course>): (r: Outcome<seq<Course>>)
    ensures r.Throws? <==> exists c | c in AllCourseTsx.BasicFilter(courses, basicFilter) :: Every(c, entries).Throws?
    ensures r.Value? ==> IsSubsequence(r.value, courses)
    ensures r.Value? ==> forall c :: c in r.value <==>
      c in courses && AllCourseTsx.PassesBasic(c, basicFilter) && Every(c, entries) == Value(true) &&
      (displayConflictCourses || AllCourseTsx.KeptBesideSelection(c, selected))
  {
    var afterBasic := AllCourseTsx.BasicFilter(courses, basicFilter);
    FilterIsSubsequence(courses, c => AllCourseTsx.PassesBasic(c, basicFilter));
    match ApplyAdvancedFilters(afterBasic, entries)
    case Throws => Throws
    case Value(afterAdvanced) =>
      SubsequenceTransitive(afterAdvanced, afterBasic, courses);
      if displayConflictCourses then Value(afterAdvanced)
      else
        var kept := AllCourseTsx.FilterOutConflictCourses(afterAdvanced, selected);
        FilterIsSubsequence(afterAdvanced, c => AllCourseTsx.KeptBesideSelection(c, selected));
        SubsequenceTransitive(kept, afterAdvanced, courses);
        Value(kept)
  }

  /** Exclude is the negation of include for the time rows. */
  lemma TimeExcludeNegatesInclude(c: Course, n: FilterName, f: FlatFilter)
    requires n.IsTimeFilter()
    ensures ApplyTimeFilter(c, n, f.(includeFlag := Some(false))).value ==
      !ApplyTimeFilter(c, n, f.(includeFlag := Some(true))).value
  {
  }

  /** Unlike the newer option filter, `include: false` inverts the option test. */
  lemma OptionExcludeNegatesInclude(c: Course, n: FilterName, f: FlatFilter)
    requires !n.IsTimeFilter()
    ensures ApplyOptionFilter(c, n, f.(includeFlag := Some(false))) == !ApplyOptionFilter(c, n, f.(includeFlag := Some(true)))
  {
  }
}
