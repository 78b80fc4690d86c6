/**
  The course-selection page container: time-conflict detection between
  courses, the weekly hour total of a selection, and the derivation of
  the 系所 (department) and 學分 (credit) filter options from the
  catalogue.
*/
module SelectorSetting {
  import opened Config
  import opened Courses
  import opened Seqs
  import opened Sorting

  /** Some period key occurs in both day strings. */
  predicate SharePeriod(p: string, q: string) {
    exists t | t in p :: t in q
  }

  /** Two courses meet at the same period on the same day. */
  predicate Conflicts(a: Course, b: Course) {
    exists d | d in Weekdays :: SharePeriod(a.Periods(d), b.Periods(d))
  }

  /** `course` conflicts with some course of the selection. */
  predicate ConflictsWithAny(course: Course, selected: seq<Course>) {
    exists s | s in selected :: Conflicts(course, s)
  }

  /** `isConflict`: scans the week days in order and stops at the first shared period. */
  method IsConflict(a: Course, b: Course) returns (r: bool)
    ensures r <==> Conflicts(a, b)
  {
    var i := 0;
    while i < |Weekdays|
      invariant 0 <= i <= |Weekdays|
      invariant forall k :: 0 <= k < i ==> !SharePeriod(a.Periods(Weekdays[k]), b.Periods(Weekdays[k]))
    {
      var day := Weekdays[i];
      if a.Periods(day) != "" && b.Periods(day) != "" {
        var time1 := a.Periods(day);
        var time2 := b.Periods(day);
        if exists t | t in time1 :: t in time2 {
          return true;
        }
      }
      i := i + 1;
    }
    return false;
  }

  /** `detectTimeConflict`: scans the selection and stops at the first conflict. */
  method DetectTimeConflict(course: Course, selected: seq<Course>) returns (r: bool)
    ensures r <==> ConflictsWithAny(course, selected)
  {
    var i := 0;
    while i < |selected|
      invariant 0 <= i <= |selected|
      invariant forall k :: 0 <= k < i ==> !Conflicts(course, selected[k])
    {
      var c := IsConflict(course, selected[i]);
      if c {
        return true;
      }
      i := i + 1;
    }
    return false;
  }

  /** Conflict is symmetric. */
  lemma ConflictSymmetric(a: Course, b: Course)
    ensures Conflicts(a, b) <==> Conflicts(b, a)
  {
    if Conflicts(a, b) {
      var d :| d in Weekdays && SharePeriod(a.Periods(d), b.Periods(d));
      var t :| t in a.Periods(d) && t in b.Periods(d);
      assert SharePeriod(b.Periods(d), a.Periods(d));
    }
    if Conflicts(b, a) {
      var d :| d in Weekdays && SharePeriod(b.Periods(d), a.Periods(d));
      var t :| t in b.Periods(d) && t in a.Periods(d);
      assert SharePeriod(a.Periods(d), b.Periods(d));
    }
  }

  /** A course conflicts with itself exactly when it meets at all. */
  lemma SelfConflictIffMeets(a: Course)
    ensures Conflicts(a, a) <==> a.Meets()
  {
    WeekdaysComplete();
    if a.Meets() {
      var d :| a.Periods(d) != "";
      assert a.Periods(d)[0] in a.Periods(d);
      assert SharePeriod(a.Periods(d), a.Periods(d));
    }
  }

  /** A course that never meets conflicts with nothing. */
  lemma NoMeetingNoConflict(a: Course, selected: seq<Course>)
    requires !a.Meets()
    ensures !ConflictsWithAny(a, selected)
  {
    forall s | s in selected
      ensures !Conflicts(a, s)
    {
      forall d | d in Weekdays
        ensures !SharePeriod(a.Periods(d), s.Periods(d))
      {
        assert a.Periods(d) == "";
      }
    }
  }

  /** A meeting course that is already selected conflicts with the selection (with itself). */
  lemma SelectedCourseConflicts(course: Course, selected: seq<Course>)
    requires course in selected && course.Meets()
    ensures ConflictsWithAny(course, selected)
  {
    SelfConflictIffMeets(course);
  }

  /** The number of periods a course meets on the days of `days`. */
  function HoursOn(c: Course, days: seq<Weekday>): nat {
    if days == [] then 0 else |c.Periods(days[0])| + HoursOn(c, days[1..])
  }

  /** The weekly number of periods of a course. */
  function Hours(c: Course): nat {
    HoursOn(c, Weekdays)
  }

  /** The weekly number of periods of a selection. */
  function TotalHours(selected: seq<Course>): nat {
    if selected == [] then 0 else Hours(selected[0]) + TotalHours(selected[1..])
  }

  /** A course has no hours exactly when it never meets. */
  lemma HoursZeroIffNoMeeting(c: Course)
    ensures Hours(c) == 0 <==> !c.Meets()
  {
    WeekdaysComplete();
    if c.Meets() {
      var d :| c.Periods(d) != "";
      HoursOnPositive(c, Weekdays, d);
    } else {
      HoursOnZero(c, Weekdays);
    }
  }

  lemma {:induction false} HoursOnZero(c: Course, days: seq<Weekday>)
    requires !c.Meets()
    ensures HoursOn(c, days) == 0
  {
    if days != [] {
      assert c.Periods(days[0]) == "";
      HoursOnZero(c, days[1..]);
    }
  }

  lemma {:induction false} HoursOnPositive(c: Course, days: seq<Weekday>, d: Weekday)
    requires d in days && c.Periods(d) != ""
    ensures HoursOn(c, days) > 0
  {
    if days[0] != d {
      HoursOnPositive(c, days[1..], d);
    }
  }

  /** Hours add up over a concatenation of selections. */
  lemma {:induction false} TotalHoursAppend(a: seq<Course>, b: seq<Course>)
    ensures TotalHours(a + b) == TotalHours(a) + TotalHours(b)
  {
    if a == [] {
      assert a + b == b;
    } else {
      assert (a + b)[0] == a[0];
      assert (a + b)[1..] == a[1..] + b;
      TotalHoursAppend(a[1..], b);
    }
  }

  /** The hour total of `calculateTotalCreditsAndHours`: a loop over the selection and the week days. */
  method CalculateTotalHours(selected: seq<Course>) returns (totalHours: nat)
    ensures totalHours == TotalHours(selected)
  {
    totalHours := 0;
    var i := 0;
    while i < |selected|
      invariant 0 <= i <= |selected|
      invariant totalHours == TotalHours(selected[..i])
    {
      var course := selected[i];
      var j := 0;
      var courseHours := 0;
      while j < |Weekdays|
        invariant 0 <= j <= |Weekdays|
        invariant courseHours + HoursOn(course, Weekdays[j..]) == Hours(course)
      {
        assert Weekdays[j..][1..] == Weekdays[j + 1..];
        courseHours := courseHours + |course.Periods(Weekdays[j])|;
        j := j + 1;
      }
      assert selected[..i + 1] == selected[..i] + [course];
      TotalHoursAppend(selected[..i], [course]);
      totalHours := totalHours + courseHours;
      i := i + 1;
    }
    assert selected[..i] == selected;
  }

  /** `Array.from(new Set(values)).sort()` */
  function SortedDistinct(values: seq<string>): (r: seq<string>)
    ensures StrictlySorted(r)
    ensures forall x :: x in r <==> x in values
  {
    var r := SortStrings(Distinct(values));
    SortedDistinctIsSortedSet(values);
    assert forall x :: x in r <==> x in multiset(Distinct(values));
    r
  }

  /** Sorting the distinct values gives the ascending enumeration of the value set. */
  lemma SortedDistinctIsSortedSet(values: seq<string>)
    ensures SortStrings(Distinct(values)) == SortedSet(set x | x in values)
  {
    var d := Distinct(values);
    var s := SortedSet(set x | x in values);
    StrictlySortedIsSorted(s);
    NoDupsMultiset(d, s);
    SortedUnique(SortStrings(d), s);
  }

  lemma NoDupsMultiset(a: seq<string>, b: seq<string>)
    requires NoDups(a) && StrictlySorted(b)
    requires forall x :: x in a <==> x in b
    ensures multiset(a) == multiset(b)
  {
    assert NoDups(b) by {
      forall i, j | 0 <= i < j < |b| ensures b[i] != b[j] {
        JsStrings.LexLessIrreflexive(b[i]);
      }
    }
    forall x
      ensures multiset(a)[x] == multiset(b)[x]
    {
      NoDupsCount(a, x);
      NoDupsCount(b, x);
    }
  }

  lemma {:induction false} NoDupsCount(a: seq<string>, x: string)
    requires NoDups(a)
    ensures multiset(a)[x] == if x in a then 1 else 0
  {
    if a != [] {
      assert a == [a[0]] + a[1..];
      assert NoDups(a[1..]);
      NoDupsCount(a[1..], x);
      assert multiset(a) == multiset{a[0]} + multiset(a[1..]);
    }
  }

  /** `course[field]` for every course, in order. */
  function Project(courses: seq<Course>, f: Field): (r: seq<string>)
    ensures |r| == |courses| && forall i :: 0 <= i < |r| ==> r[i] == courses[i].Get(f)
  {
    if courses == [] then [] else [courses[0].Get(f)] + Project(courses[1..], f)
  }

  lemma ProjectPrefix(courses: seq<Course>, f: Field, i: nat)
    requires i < |courses|
    ensures Project(courses[..i + 1], f) == Project(courses[..i], f) + [courses[i].Get(f)]
  {
  }

  /**
    The collecting loop of `calculateFilterOptions`: every department
    and every credit value of the catalogue, once each, ascending.
  */
  method CollectFilterOptions(courses: seq<Course>) returns (departments: seq<string>, credits: seq<string>)
    ensures departments == SortedDistinct(Project(courses, Department))
    ensures credits == SortedDistinct(Project(courses, Credit))
  {
    var deptSet: seq<string> := [];
    var creditSet: seq<string> := [];
    var i := 0;
    while i < |courses|
      invariant 0 <= i <= |courses|
      invariant deptSet == Distinct(Project(courses[..i], Department))
      invariant creditSet == Distinct(Project(courses[..i], Credit))
    {
      ProjectPrefix(courses, Department, i);
      ProjectPrefix(courses, Credit, i);
      var course := courses[i];
      DistinctSnoc(Project(courses[..i], Department), course.Get(Department));
      DistinctSnoc(Project(courses[..i], Credit), course.Get(Credit));
      deptSet := Insert(deptSet, course.Get(Department));
      creditSet := Insert(creditSet, course.Get(Credit));
      i := i + 1;
    }
    assert courses[..i] == courses;
    departments := SortStrings(deptSet);
    credits := SortStrings(creditSet);
  }

  /** Adding one value at the end is `Set.prototype.add`. */
  lemma DistinctSnoc(s: seq<string>, x: string)
    ensures Distinct(s + [x]) == Insert(Distinct(s), x)
  {
    DistinctFromSnoc(s, x, []);
  }

  lemma {:induction false} DistinctFromSnoc(s: seq<string>, x: string, acc: seq<string>)
    requires NoDups(acc)
    ensures DistinctFrom(s + [x], acc) == Insert(DistinctFrom(s, acc), x)
  {
    if s == [] {
      assert [x][1..] == [];
    } else {
      assert (s + [x])[1..] == s[1..] + [x];
      DistinctFromSnoc(s[1..], x, Insert(acc, s[0]));
    }
  }

  /** The new 系所/學分 entry: the client website rebuilds it from the drop-down flag alone. */
  function RebuiltEntry(prev: FilterOptionSpec, options: seq<string>): (e: FilterOptionSpec)
    ensures e.options == options && e.dropdown == prev.dropdown && e.optionDisplayName.None?
  {
    FilterOptionSpec(options, Outcomes.None, prev.dropdown)
  }

  /** The new 系所/學分 entry: the earlier app spreads the previous entry and replaces its options. */
  function SpreadEntry(prev: FilterOptionSpec, options: seq<string>): (e: FilterOptionSpec)
    ensures e.options == options && e.dropdown == prev.dropdown
    ensures e.optionDisplayName == prev.optionDisplayName
  {
    prev.(options := options)
  }

  /** On the default entries, which carry no display names, both generations agree. */
  lemma EntryUpdatesAgreeOnDefaults(n: FilterName, options: seq<string>)
    requires n == ByDepartment || n == ByCredit
    ensures RebuiltEntry(DefaultFilterOptions(n), options) == SpreadEntry(DefaultFilterOptions(n), options)
  {
  }

  /** The page's filter-option state. */
  class OptionsState {
    var filterOptions: map<FilterName, FilterOptionSpec>
    /** Which generation's entry update is modelled. */
    const rebuildEntries: bool

    ghost predicate Valid()
      reads this
    {
      ByDepartment in filterOptions && ByCredit in filterOptions
    }

    constructor (rebuildEntries: bool)
      ensures Valid()
      ensures filterOptions == map n: FilterName | n in FilterNames :: DefaultFilterOptions(n)
      ensures this.rebuildEntries == rebuildEntries
    {
      this.rebuildEntries := rebuildEntries;
      FilterNamesComplete();
      filterOptions := map n: FilterName | n in FilterNames :: DefaultFilterOptions(n);
    }

    function Entry(prev: FilterOptionSpec, options: seq<string>): FilterOptionSpec
      reads this
    {
      if rebuildEntries then RebuiltEntry(prev, options) else SpreadEntry(prev, options)
    }

    /** `calculateFilterOptions`: only the 系所 and 學分 rows change. */
    method CalculateFilterOptions(courses: seq<Course>)
      requires Valid()
      modifies this
      ensures Valid()
      ensures filterOptions == old(filterOptions)
        [ByDepartment := Entry(old(filterOptions)[ByDepartment], SortedDistinct(Project(courses, Department)))]
        [ByCredit := Entry(old(filterOptions)[ByCredit], SortedDistinct(Project(courses, Credit)))]
    {
      var departments, credits := CollectFilterOptions(courses);
      var prev := filterOptions;
      filterOptions := prev
        [ByDepartment := Entry(prev[ByDepartment], departments)]
        [ByCredit := Entry(prev[ByCredit], credits)];
    }
  }
}
