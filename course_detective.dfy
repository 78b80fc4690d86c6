/**
  The course detective: an ordered list of categories, each switched on
  or off, turned into one list of courses. Courses are first narrowed to
  the clicked timetable cells; then every enabled category, in list
  order, appends the pool courses it matches whose number has not been
  placed yet, shuffling the two "random" categories. The category order
  and switches are remembered in browser storage.
*/
module CourseDetective {
  import opened Outcomes
  import opened Config
  import opened Courses
  import opened Seqs
  import opened JsStrings
  import opened Shuffling

  // ------------------------------------------------------------ categories

  /** The keys of `filterConditions`. */
  datatype Category =
    | LiberalArts | SportsFitness | SportsOther | CrossDepartment | ChineseCriticalThinking
    | RandomCourses | RandomGraduateCourses
    | EnglishBeginner | EnglishIntermediate | EnglishAdvancedMid | EnglishAdvanced
  {
    function Id(): string {
      match this
      case LiberalArts => "liberal-arts"
      case SportsFitness => "sports-fitness"
      case SportsOther => "sports-other"
      case CrossDepartment => "cross-department"
      case ChineseCriticalThinking => "chinese-critical-thinking"
      case RandomCourses => "random-courses"
      case RandomGraduateCourses => "random-graduate-courses"
      case EnglishBeginner => "english-beginner"
      case EnglishIntermediate => "english-intermediate"
      case EnglishAdvancedMid => "english-advanced-mid"
      case EnglishAdvanced => "english-advanced"
    }

    /** The two categories whose matches are shuffled. */
    predicate IsRandom() {
      this == RandomCourses || this == RandomGraduateCourses
    }
  }

  /** `filterConditions[id]` on the table's own keys: the category an element id names, if any. */
  function CategoryOfId(id: string): (r: Option<Category>)
    ensures r.Some? ==> r.value.Id() == id
    ensures r.None? ==> forall cat: Category :: cat.Id() != id
  {
    if id == "liberal-arts" then Some(LiberalArts)
    else if id == "sports-fitness" then Some(SportsFitness)
    else if id == "sports-other" then Some(SportsOther)
    else if id == "cross-department" then Some(CrossDepartment)
    else if id == "chinese-critical-thinking" then Some(ChineseCriticalThinking)
    else if id == "random-courses" then Some(RandomCourses)
    else if id == "random-graduate-courses" then Some(RandomGraduateCourses)
    else if id == "english-beginner" then Some(EnglishBeginner)
    else if id == "english-intermediate" then Some(EnglishIntermediate)
    else if id == "english-advanced-mid" then Some(EnglishAdvancedMid)
    else if id == "english-advanced" then Some(EnglishAdvanced)
    else None
  }

  /** Every element of the default order names a category. */
  lemma DefaultElementsKnown()
    ensures forall i :: 0 <= i < |CourseDetectiveElements| ==> CategoryOfId(CourseDetectiveElements[i].id).Some?
  {
  }

  const FitnessName := "運動與健康：體適能"
  const SwimmingName := "運動與健康：初級游泳"
  const SportsPrefix := "運動與健康："

  /** The condition each category tests. */
  predicate Matches(cat: Category, c: Course) {
    match cat
    case LiberalArts => StartsWith(c.department, "博雅")
    case SportsFitness => c.name == FitnessName || c.name == SwimmingName
    case SportsOther => StartsWith(c.name, SportsPrefix) && c.name != FitnessName && c.name != SwimmingName
    case CrossDepartment => StartsWith(c.department, "跨院")
    case ChineseCriticalThinking => StartsWith(c.name, "中文思辨與表達")
    case RandomCourses =>
      !Includes(c.department, "碩") && !Includes(c.department, "博") &&
      !StartsWith(c.department, "博雅") && !StartsWith(c.name, SportsPrefix) &&
      !StartsWith(c.name, "中文思辨與表達") && !StartsWith(c.department, "跨院") &&
      c.name != "英文初級" && c.name != "英文中級" && c.name != "英文中高級" && c.name != "英文高級"
    case RandomGraduateCourses =>
      (Includes(c.department, "碩") || Includes(c.department, "博")) && !StartsWith(c.department, "博雅")
    case EnglishBeginner => c.name == "英文初級"
    case EnglishIntermediate => c.name == "英文中級"
    case EnglishAdvancedMid => c.name == "英文中高級"
    case EnglishAdvanced => c.name == "英文高級"
  }

  /** The two sports categories split the sports courses between them. */
  lemma SportsCategoriesPartition(c: Course)
    ensures Matches(SportsFitness, c) || Matches(SportsOther, c) <==> StartsWith(c.name, SportsPrefix)
    ensures !(Matches(SportsFitness, c) && Matches(SportsOther, c))
  {
    assert StartsWith(FitnessName, SportsPrefix) by {
      assert FitnessName[..|SportsPrefix|] == SportsPrefix;
    }
    assert StartsWith(SwimmingName, SportsPrefix) by {
      assert SwimmingName[..|SportsPrefix|] == SportsPrefix;
    }
  }

  /** A course of "random-courses" matches no other category. */
  lemma RandomCoursesExclusive(c: Course, other: Category)
    requires Matches(RandomCourses, c) && other != RandomCourses
    ensures !Matches(other, c)
  {
    if other == SportsFitness {
      SportsCategoriesPartition(c);
    } else if other == RandomGraduateCourses {
    }
  }

  predicate IsEnglishLevel(cat: Category) {
    cat == EnglishBeginner || cat == EnglishIntermediate || cat == EnglishAdvancedMid || cat == EnglishAdvanced
  }

  /** The English levels are exact-name tests, so no course is at two levels. */
  lemma EnglishLevelsExclusive(c: Course, a: Category, b: Category)
    requires IsEnglishLevel(a) && IsEnglishLevel(b) && a != b
    ensures !(Matches(a, c) && Matches(b, c))
  {
  }

  // ------------------------------------------------------ time-slot pool

  /** `searchTimeSlot.some(({ weekday, timeSlot }) => course[weekday]?.includes(timeSlot))` */
  predicate InSlots(c: Course, slots: seq<TimeSlot>) {
    exists i :: 0 <= i < |slots| && Includes(c.Periods(slots[i].weekday), slots[i].timeSlot)
  }

  /** Step 1: every course when no cell is clicked, else those meeting in a clicked cell. */
  function TimeSlotPool(courses: seq<Course>, slots: seq<TimeSlot>): (r: seq<Course>)
    ensures IsSubsequence(r, courses)
    ensures forall c :: c in r <==> c in courses && (slots == [] || InSlots(c, slots))
  {
    if slots == [] then
      SubsequenceReflexive(courses);
      courses
    else
      FilterIsSubsequence(courses, c => InSlots(c, slots));
      Filter(courses, c => InSlots(c, slots))
  }

  // ------------------------------------------------------- reorder spec

  /** `orderElements.filter((element) => element.enabled)` */
  function EnabledElements(elements: seq<DetectiveElement>): (r: seq<DetectiveElement>)
    ensures IsSubsequence(r, elements)
    ensures forall e :: e in r <==> e in elements && e.enabled
  {
    FilterIsSubsequence(elements, (e: DetectiveElement) => e.enabled);
    Filter(elements, (e: DetectiveElement) => e.enabled)
  }

  /** `addedCourseIds`: the numbers of the courses placed so far. */
  function NumbersOf(cs: seq<Course>): set<string> {
    set c | c in cs :: c.number
  }

  lemma NumbersOfAppend(cs: seq<Course>, c: Course)
    ensures NumbersOf(cs + [c]) == NumbersOf(cs) + {c.number}
  {
    assert forall d :: d in cs + [c] <==> d in cs || d == c;
  }

  /** `matchingCourses` before shuffling: pool courses of the category whose number is new. */
  function BucketMatches(pool: seq<Course>, cat: Category, added: set<string>, cond: Conditions): (r: seq<Course>)
    ensures forall c :: c in r <==> c in pool && cond(cat, c) && c.number !in added
  {
    Filter(pool, c => cond(cat, c) && c.number !in added)
  }

  /** The bucket in the order it is appended. */
  function Arrange(cat: Category, matching: seq<Course>, pick: nat -> nat): (r: seq<Course>)
    ensures multiset(r) == multiset(matching)
  {
    if cat.IsRandom() then
      ShufflePermutes(matching, pick);
      Shuffle(matching, pick)
    else matching
  }

  /**
    The category conditions. The reorder works for any conditions; the
    page passes `Matches`.
  */
  type Conditions = (Category, Course) -> bool

  /** The random draws, per position in the enabled list. */
  type Picks = nat -> nat -> nat

  /** One iteration of the `forEach`: element `e`, at position `k` of the enabled list. */
  function Step(pool: seq<Course>, e: DetectiveElement, k: nat, before: seq<Course>, cond: Conditions, picks: Picks): seq<Course> {
    match CategoryOfId(e.id)
    case None => before
    case Some(cat) => before + Arrange(cat, BucketMatches(pool, cat, NumbersOf(before), cond), picks(k))
  }

  /** The list `reorderAndFilterCourses` builds from the enabled elements. */
  function ReorderSpec(pool: seq<Course>, enabled: seq<DetectiveElement>, cond: Conditions, picks: Picks): seq<Course>
    decreases |enabled|
  {
    if enabled == [] then []
    else
      var k := |enabled| - 1;
      Step(pool, enabled[k], k, ReorderSpec(pool, enabled[..k], cond, picks), cond, picks)
  }

  lemma ReorderUnfold(pool: seq<Course>, enabled: seq<DetectiveElement>, cond: Conditions, picks: Picks, k: nat)
    requires k < |enabled|
    ensures ReorderSpec(pool, enabled[..k + 1], cond, picks) ==
      Step(pool, enabled[k], k, ReorderSpec(pool, enabled[..k], cond, picks), cond, picks)
  {
    assert enabled[..k + 1][..k] == enabled[..k];
  }

  /** An element whose id is none of the table's own keys appends nothing. */
  lemma UnknownIdAddsNothing(pool: seq<Course>, enabled: seq<DetectiveElement>, cond: Conditions, picks: Picks, k: nat)
    requires k < |enabled| && CategoryOfId(enabled[k].id).None?
    ensures ReorderSpec(pool, enabled[..k + 1], cond, picks) == ReorderSpec(pool, enabled[..k], cond, picks)
  {
    ReorderUnfold(pool, enabled, cond, picks, k);
  }

  /**
    A known element appends its bucket: the pool courses it matches whose
    number is new, in pool order for an ordinary category and rearranged
    for a random one.
  */
  lemma KnownIdAppendsBucket(pool: seq<Course>, enabled: seq<DetectiveElement>, cond: Conditions, picks: Picks, k: nat)
    requires k < |enabled| && CategoryOfId(enabled[k].id).Some?
    ensures var before := ReorderSpec(pool, enabled[..k], cond, picks);
            var after := ReorderSpec(pool, enabled[..k + 1], cond, picks);
            var cat := CategoryOfId(enabled[k].id).value;
            var bucket := BucketMatches(pool, cat, NumbersOf(before), cond);
            before <= after &&
            multiset(after[|before|..]) == multiset(bucket) &&
            (!cat.IsRandom() ==> after[|before|..] == bucket && IsSubsequence(bucket, pool))
  {
    ReorderUnfold(pool, enabled, cond, picks, k);
    var before := ReorderSpec(pool, enabled[..k], cond, picks);
    var cat := CategoryOfId(enabled[k].id).value;
    FilterIsSubsequence(pool, c => cond(cat, c) && c.number !in NumbersOf(before));
    var bucket := BucketMatches(pool, cat, NumbersOf(before), cond);
    var arranged := Arrange(cat, bucket, picks(k));
    assert (before + arranged)[|before|..] == arranged;
  }

  /** The element names a category and `c` satisfies its condition. */
  predicate Placeable(e: DetectiveElement, c: Course, cond: Conditions) {
    CategoryOfId(e.id).Some? && cond(CategoryOfId(e.id).value, c)
  }

  /** Every listed course is a pool course that some enabled category matches. */
  lemma {:induction false} ReorderSound(pool: seq<Course>, enabled: seq<DetectiveElement>, cond: Conditions, picks: Picks)
    ensures forall c :: c in ReorderSpec(pool, enabled, cond, picks) ==>
      c in pool && exists k :: 0 <= k < |enabled| && Placeable(enabled[k], c, cond)
    decreases |enabled|
  {
    if enabled != [] {
      var k := |enabled| - 1;
      var before := ReorderSpec(pool, enabled[..k], cond, picks);
      ReorderSound(pool, enabled[..k], cond, picks);
      forall c | c in ReorderSpec(pool, enabled, cond, picks)
        ensures c in pool && exists i :: 0 <= i < |enabled| && Placeable(enabled[i], c, cond)
      {
        if c in before {
          var i :| 0 <= i < k && Placeable(enabled[..k][i], c, cond);
          assert enabled[..k][i] == enabled[i];
        } else {
          var cat := CategoryOfId(enabled[k].id).value;
          var matching := BucketMatches(pool, cat, NumbersOf(before), cond);
          assert c in multiset(Arrange(cat, matching, picks(k)));
          assert c in matching;
          assert Placeable(enabled[k], c, cond);
        }
      }
    }
  }

  /** The list for a prefix of the enabled elements is a prefix of the list. */
  lemma {:induction false} ReorderPrefix(pool: seq<Course>, enabled: seq<DetectiveElement>, cond: Conditions, picks: Picks, k: nat)
    requires k <= |enabled|
    ensures ReorderSpec(pool, enabled[..k], cond, picks) <= ReorderSpec(pool, enabled, cond, picks)
    decreases |enabled| - k
  {
    if k < |enabled| {
      var n := |enabled| - 1;
      assert enabled[..n][..k] == enabled[..k];
      ReorderPrefix(pool, enabled[..n], cond, picks, k);
      ReorderStep(pool, enabled, cond, picks);
      PrefixTransitive(ReorderSpec(pool, enabled[..k], cond, picks), ReorderSpec(pool, enabled[..n], cond, picks), ReorderSpec(pool, enabled, cond, picks));
    } else {
      assert enabled[..k] == enabled;
    }
  }

  lemma PrefixTransitive<T>(a: seq<T>, b: seq<T>, c: seq<T>)
    requires a <= b && b <= c
    ensures a <= c
  {
    assert a == b[..|a|] && b == c[..|b|];
    assert a == c[..|a|];
  }

  /** One more enabled element only appends to the list. */
  lemma ReorderStep(pool: seq<Course>, enabled: seq<DetectiveElement>, cond: Conditions, picks: Picks)
    requires enabled != []
    ensures ReorderSpec(pool, enabled[..|enabled| - 1], cond, picks) <= ReorderSpec(pool, enabled, cond, picks)
  {
  }

  /** No course number is listed twice when the pool's numbers are distinct. */
  lemma {:induction false} ReorderDistinctNumbers(pool: seq<Course>, enabled: seq<DetectiveElement>, cond: Conditions, picks: Picks)
    requires NoDups(Numbers(pool))
    ensures NoDups(Numbers(ReorderSpec(pool, enabled, cond, picks)))
    decreases |enabled|
  {
    if enabled != [] {
      var k := |enabled| - 1;
      var before := ReorderSpec(pool, enabled[..k], cond, picks);
      ReorderDistinctNumbers(pool, enabled[..k], cond, picks);
      if CategoryOfId(enabled[k].id).Some? {
        var cat := CategoryOfId(enabled[k].id).value;
        var matching := BucketMatches(pool, cat, NumbersOf(before), cond);
        var arranged := Arrange(cat, matching, picks(k));
        NumbersDistinctCoursesDistinct(pool);
        FilterNoDups(pool, c => cond(cat, c) && c.number !in NumbersOf(before));
        NoDupsPermutation(matching, arranged);
        forall c | c in arranged
          ensures c in pool && c.number !in NumbersOf(before)
        {
          assert c in multiset(arranged);
        }
        AppendKeepsNumbersDistinct(pool, before, arranged);
      }
    }
  }

  lemma NumbersDistinctCoursesDistinct(pool: seq<Course>)
    requires NoDups(Numbers(pool))
    ensures NoDups(pool)
  {
    forall i, j | 0 <= i < j < |pool| ensures pool[i] != pool[j] {
      assert Numbers(pool)[i] != Numbers(pool)[j];
    }
  }

  /** Appending distinct pool courses with new numbers keeps numbers distinct. */
  lemma AppendKeepsNumbersDistinct(pool: seq<Course>, before: seq<Course>, arranged: seq<Course>)
    requires NoDups(Numbers(pool)) && NoDups(Numbers(before)) && NoDups(arranged)
    requires forall c | c in arranged :: c in pool && c.number !in NumbersOf(before)
    ensures NoDups(Numbers(before + arranged))
  {
    var r := before + arranged;
    forall i, j | 0 <= i < j < |r|
      ensures Numbers(r)[i] != Numbers(r)[j]
    {
      if j < |before| {
        assert Numbers(before)[i] != Numbers(before)[j];
      } else if i < |before| {
        assert r[i] in before && r[j] in arranged;
      } else {
        var a, b := r[i], r[j];
        assert a == arranged[i - |before|] && b == arranged[j - |before|];
        PoolNumbersIdentify(pool, a, b);
      }
    }
  }

  /** A pool course that an enabled category matches has its number listed. */
  lemma {:induction false} ReorderCovers(pool: seq<Course>, enabled: seq<DetectiveElement>, cond: Conditions, picks: Picks, k: nat, c: Course)
    requires c in pool && k < |enabled| && Placeable(enabled[k], c, cond)
    ensures c.number in NumbersOf(ReorderSpec(pool, enabled, cond, picks))
    decreases |enabled|, 1
  {
    var n := |enabled| - 1;
    var before := ReorderSpec(pool, enabled[..n], cond, picks);
    ReorderStep(pool, enabled, cond, picks);
    NumbersOfPrefix(before, ReorderSpec(pool, enabled, cond, picks));
    if k < n {
      EarlierElementCovers(pool, enabled, cond, picks, k, c);
    } else if c.number !in NumbersOf(before) {
      LastElementCovers(pool, enabled, cond, picks, c);
    }
  }

  /** A course an earlier element places is listed before the last element's turn. */
  lemma {:induction false} EarlierElementCovers(pool: seq<Course>, enabled: seq<DetectiveElement>, cond: Conditions, picks: Picks, k: nat, c: Course)
    requires c in pool && k < |enabled| - 1 && Placeable(enabled[k], c, cond)
    ensures c.number in NumbersOf(ReorderSpec(pool, enabled[..|enabled| - 1], cond, picks))
    decreases |enabled|, 0
  {
    var prefix := enabled[..|enabled| - 1];
    assert prefix[k] == enabled[k];
    ReorderCovers(pool, prefix, cond, picks, k, c);
  }

  /** A pool course the last enabled category matches, not yet listed before it, is listed by it. */
  lemma LastElementCovers(pool: seq<Course>, enabled: seq<DetectiveElement>, cond: Conditions, picks: Picks, c: Course)
    requires enabled != [] && c in pool && Placeable(enabled[|enabled| - 1], c, cond)
    requires c.number !in NumbersOf(ReorderSpec(pool, enabled[..|enabled| - 1], cond, picks))
    ensures c in ReorderSpec(pool, enabled, cond, picks)
  {
    var n := |enabled| - 1;
    var before := ReorderSpec(pool, enabled[..n], cond, picks);
    var cat := CategoryOfId(enabled[n].id).value;
    var matching := BucketMatches(pool, cat, NumbersOf(before), cond);
    var arranged := Arrange(cat, matching, picks(n));
    assert c in matching;
    assert c in multiset(arranged);
    assert ReorderSpec(pool, enabled, cond, picks) == before + arranged;
  }

  lemma NumbersOfPrefix(a: seq<Course>, b: seq<Course>)
    requires a <= b
    ensures NumbersOf(a) <= NumbersOf(b)
  {
    forall d | d in a ensures d in b {
      var i :| 0 <= i < |a| && a[i] == d;
      assert b[i] == d;
    }
  }

  /** With distinct pool numbers, a number identifies a pool course. */
  lemma PoolNumbersIdentify(pool: seq<Course>, a: Course, b: Course)
    requires NoDups(Numbers(pool)) && a in pool && b in pool
    ensures a.number == b.number ==> a == b
  {
    var x, y := IndexOf(pool, a), IndexOf(pool, b);
    assert Numbers(pool)[x] == a.number && Numbers(pool)[y] == b.number;
  }

  /**
    With distinct pool numbers, a course that several enabled categories
    match is placed by the earliest of them.
  */
  lemma EarliestCategoryPlaces(pool: seq<Course>, enabled: seq<DetectiveElement>, cond: Conditions, picks: Picks, k: nat, c: Course)
    requires NoDups(Numbers(pool))
    requires c in pool && k < |enabled| && Placeable(enabled[k], c, cond)
    requires forall i :: 0 <= i < k ==> !Placeable(enabled[i], c, cond)
    ensures c !in ReorderSpec(pool, enabled[..k], cond, picks)
    ensures c in ReorderSpec(pool, enabled[..k + 1], cond, picks)
  {
    var before := ReorderSpec(pool, enabled[..k], cond, picks);
    ReorderSound(pool, enabled[..k], cond, picks);
    assert forall i :: 0 <= i < k ==> enabled[..k][i] == enabled[i];
    forall d | d in before
      ensures d.number != c.number
    {
      assert d != c;
      PoolNumbersIdentify(pool, c, d);
    }
    var e := enabled[..k + 1];
    assert e[..k] == enabled[..k] && e[k] == enabled[k];
    var cat := CategoryOfId(enabled[k].id).value;
    var matching := BucketMatches(pool, cat, NumbersOf(before), cond);
    assert c in matching;
    assert c in multiset(Arrange(cat, matching, picks(k)));
  }

  /**
    Numbers are tracked between categories only: two pool courses with
    one number that match the same category are both listed.
  */
  lemma SameNumberTwiceInOneCategory(a: Course, b: Course, picks: Picks)
    requires a != b && a.number == b.number
    requires Matches(LiberalArts, a) && Matches(LiberalArts, b)
    ensures ReorderSpec([a, b], [CourseDetectiveElements[0]], Matches, picks) == [a, b]
  {
    var enabled := [CourseDetectiveElements[0]];
    assert enabled[..0] == [];
    assert BucketMatches([a, b], LiberalArts, {}, Matches) == [a, b] by {
      assert [a, b][1..] == [b];
    }
  }

  /** With nothing enabled the list is empty. */
  lemma NothingEnabledListsNothing(pool: seq<Course>, elements: seq<DetectiveElement>, cond: Conditions, picks: Picks)
    requires forall i :: 0 <= i < |elements| ==> !elements[i].enabled
    ensures ReorderSpec(pool, EnabledElements(elements), cond, picks) == []
  {
  }

  // ---------------------------------------------------------- the page

  /** `prevState.orderElements.map(...)`: flips `enabled` of the elements with id `id`. */
  function ToggleElement(elements: seq<DetectiveElement>, id: string): (r: seq<DetectiveElement>)
    ensures |r| == |elements|
    ensures forall i :: 0 <= i < |r| ==> r[i].id == elements[i].id && r[i].content == elements[i].content
    ensures forall i :: 0 <= i < |r| ==> r[i].enabled == (if elements[i].id == id then !elements[i].enabled else elements[i].enabled)
  {
    seq(|elements|, i requires 0 <= i < |elements| =>
      if elements[i].id == id then elements[i].(enabled := !elements[i].enabled) else elements[i])
  }

  lemma ToggleElementTwice(elements: seq<DetectiveElement>, id: string)
    ensures ToggleElement(ToggleElement(elements, id), id) == elements
  {
  }

  /**
    Whether the saved order replaces the default one at mount: the older
    generation takes any saved array, the newer one only a non-empty one.
  */
  predicate AdoptsSaved(gen: Generation, saved: Option<seq<DetectiveElement>>) {
    match gen
    case Jsx => saved.Some?
    case Tsx => saved.Some? && |saved.value| != 0
  }

  /** A saved empty order empties the older page's list for good; the newer page ignores it. */
  lemma EmptySavedOrder(pool: seq<Course>, cond: Conditions, picks: Picks)
    ensures AdoptsSaved(Jsx, Some([])) && !AdoptsSaved(Tsx, Some([]))
    ensures ReorderSpec(pool, EnabledElements([]), cond, picks) == []
  {
  }

  /** `matchingCourses`: the bucket of `cat`, shuffled in place for the random categories. */
  method MatchingCourses(pool: seq<Course>, cat: Category, addedCourseIds: set<string>, pick: nat -> nat)
    returns (matching: seq<Course>)
    ensures matching == Arrange(cat, BucketMatches(pool, cat, addedCourseIds, Matches), pick)
  {
    matching := BucketMatches(pool, cat, addedCourseIds, Matches);
    if cat.IsRandom() {
      var arr := new Course[|matching|](i requires 0 <= i < |matching| => matching[i]);
      assert arr[..] == matching;
      ShuffleArray(arr, pick);
      matching := arr[..];
    }
  }

  /** `matchingCourses.forEach(...)`: push every course and record its number. */
  method PushAll(ordered: seq<Course>, addedCourseIds: set<string>, matching: seq<Course>)
    returns (pushed: seq<Course>, added: set<string>)
    requires addedCourseIds == NumbersOf(ordered)
    ensures pushed == ordered + matching
    ensures added == NumbersOf(pushed)
  {
    pushed, added := ordered, addedCourseIds;
    var j := 0;
    while j < |matching|
      invariant 0 <= j <= |matching|
      invariant pushed == ordered + matching[..j]
      invariant added == NumbersOf(pushed)
    {
      NumbersOfAppend(pushed, matching[j]);
      assert matching[..j + 1] == matching[..j] + [matching[j]];
      pushed := pushed + [matching[j]];
      added := added + {matching[j].number};
      j := j + 1;
    }
    assert matching[..j] == matching;
  }

  class Detective {
    var orderElements: seq<DetectiveElement>
    var filteredCourses: seq<Course>
    /** The `orderElements` entry of browser storage, already parsed. */
    var storage: Option<seq<DetectiveElement>>

    constructor(storage: Option<seq<DetectiveElement>>)
      ensures orderElements == CourseDetectiveElements && filteredCourses == []
      ensures this.storage == storage
    {
      orderElements := CourseDetectiveElements;
      filteredCourses := [];
      this.storage := storage;
    }

    /** `reorderAndFilterCourses`, also run when the courses or the clicked cells change. */
    method ReorderAndFilterCourses(courses: seq<Course>, searchTimeSlot: seq<TimeSlot>, picks: Picks)
      modifies this
      ensures orderElements == old(orderElements) && storage == old(storage)
      ensures filteredCourses == ReorderSpec(TimeSlotPool(courses, searchTimeSlot), EnabledElements(orderElements), Matches, picks)
    {
      var pool := TimeSlotPool(courses, searchTimeSlot);
      var enabled := EnabledElements(orderElements);
      var ordered: seq<Course> := [];
      var addedCourseIds: set<string> := {};
      var k := 0;
      while k < |enabled|
        invariant 0 <= k <= |enabled|
        invariant ordered == ReorderSpec(pool, enabled[..k], Matches, picks)
        invariant addedCourseIds == NumbersOf(ordered)
        invariant unchanged(this)
      {
        ReorderUnfold(pool, enabled, Matches, picks, k);
        var category := CategoryOfId(enabled[k].id);
        if category.Some? {
          var matching := MatchingCourses(pool, category.value, addedCourseIds, picks(k));
          ordered, addedCourseIds := PushAll(ordered, addedCourseIds, matching);
        }
        k := k + 1;
      }
      assert enabled[..k] == enabled;
      filteredCourses := ordered;
    }

    /** `componentDidMount`: adopt the saved order if the generation accepts it, then build the list. */
    method Mount(gen: Generation, courses: seq<Course>, searchTimeSlot: seq<TimeSlot>, picks: Picks)
      modifies this
      ensures orderElements == (if AdoptsSaved(gen, old(storage)) then old(storage).value else old(orderElements))
      ensures storage == old(storage)
      ensures filteredCourses == ReorderSpec(TimeSlotPool(courses, searchTimeSlot), EnabledElements(orderElements), Matches, picks)
    {
      if AdoptsSaved(gen, storage) {
        orderElements := storage.value;
      } else {
        filteredCourses := courses;
      }
      ReorderAndFilterCourses(courses, searchTimeSlot, picks);
    }

    /** `setOrderElements`: a new order (from dragging), saved and applied. */
    method SetOrderElements(newOrderElements: seq<DetectiveElement>, courses: seq<Course>,
                            searchTimeSlot: seq<TimeSlot>, picks: Picks)
      modifies this
      ensures orderElements == newOrderElements && storage == Some(newOrderElements)
      ensures filteredCourses == ReorderSpec(TimeSlotPool(courses, searchTimeSlot), EnabledElements(newOrderElements), Matches, picks)
    {
      orderElements := newOrderElements;
      storage := Some(orderElements);
      ReorderAndFilterCourses(courses, searchTimeSlot, picks);
    }

    /** `toggleOrderElementEnable`: flip one category, save, rebuild. */
    method ToggleOrderElementEnable(id: string, courses: seq<Course>, searchTimeSlot: seq<TimeSlot>, picks: Picks)
      modifies this
      ensures orderElements == ToggleElement(old(orderElements), id) && storage == Some(orderElements)
      ensures filteredCourses == ReorderSpec(TimeSlotPool(courses, searchTimeSlot), EnabledElements(orderElements), Matches, picks)
    {
      orderElements := ToggleElement(orderElements, id);
      storage := Some(orderElements);
      ReorderAndFilterCourses(courses, searchTimeSlot, picks);
    }
  }
}
