/**
  The required-course panel: a set of field conditions, merged in as the
  user picks them, and the catalogue courses that meet them. Both page
  generations share this logic.
*/
module RequiredCourses {
  import opened Outcomes
  import opened Config
  import opened Courses
  import opened Seqs

  /** `requiredCourseFilters`: a condition value per course field; an absent key imposes nothing. */
  type Conditions = map<Field, string>

  /** `{ ...prev, ...supplied }`: supplied keys override, all other keys stay. */
  function Merge(prev: Conditions, supplied: Conditions): (r: Conditions)
    ensures r.Keys == prev.Keys + supplied.Keys
    ensures forall f :: f in supplied ==> r[f] == supplied[f]
    ensures forall f :: f in prev && f !in supplied ==> r[f] == prev[f]
  {
    prev + supplied
  }

  /**
    One step of the `every`: an empty value imposes nothing; any other
    value asks for that exact field value on a required (`必`) course.
  */
  predicate Meets(c: Course, f: Field, value: string) {
    value == "" || (c.Get(f) == value && c.compulsoryElective == "必")
  }

  /** The course meets every condition. */
  predicate PassesAll(c: Course, conds: Conditions) {
    forall f :: f in conds ==> Meets(c, f, conds[f])
  }

  function Passing(conds: Conditions): Course -> bool {
    (c: Course) => PassesAll(c, conds)
  }

  /** Some condition is non-empty. */
  predicate Active(conds: Conditions) {
    exists f :: f in conds && conds[f] != ""
  }

  /** `applyFilters`: the courses meeting every condition, in catalogue order. */
  function Matching(courses: seq<Course>, conds: Conditions): (r: seq<Course>)
    ensures IsSubsequence(r, courses)
    ensures forall c :: c in r <==> c in courses && PassesAll(c, conds)
  {
    FilterIsSubsequence(courses, Passing(conds));
    Filter(courses, Passing(conds))
  }

  /** With every condition empty, the whole catalogue is shown, electives included. */
  lemma NoActiveConditionKeepsAll(courses: seq<Course>, conds: Conditions)
    requires !Active(conds)
    ensures Matching(courses, conds) == courses
  {
    FilterAll(courses, Passing(conds));
  }

  /** With some non-empty condition, only required courses equal on every non-empty key are shown. */
  lemma ActiveConditionsOnlyRequired(courses: seq<Course>, conds: Conditions, c: Course)
    requires Active(conds) && c in Matching(courses, conds)
    ensures c.compulsoryElective == "必"
    ensures forall f :: f in conds && conds[f] != "" ==> c.Get(f) == conds[f]
  {
    var f :| f in conds && conds[f] != "";
    assert Meets(c, f, conds[f]);
  }

  /** A condition set to the empty value is the same as no condition on that field. */
  lemma EmptyConditionIgnored(courses: seq<Course>, conds: Conditions, f: Field)
    ensures Matching(courses, conds[f := ""]) == Matching(courses, conds - {f})
  {
    var cleared, dropped := conds[f := ""], conds - {f};
    forall c: Course ensures Passing(cleared)(c) == Passing(dropped)(c) {
      if !PassesAll(c, dropped) {
        var g :| g in dropped && !Meets(c, g, dropped[g]);
        assert g in cleared && cleared[g] == dropped[g];
      }
      if !PassesAll(c, cleared) {
        var g :| g in cleared && !Meets(c, g, cleared[g]);
        assert g != f;
        assert g in dropped && cleared[g] == dropped[g];
      }
    }
    FilterExtensional(courses, Passing(cleared), Passing(dropped));
  }

  /** A condition on a new field filters the previous result by that condition alone. */
  lemma NewConditionNarrows(courses: seq<Course>, conds: Conditions, f: Field, value: string)
    requires f !in conds
    ensures Matching(courses, conds[f := value]) ==
            Filter(Matching(courses, conds), (c: Course) => Meets(c, f, value))
  {
    var added := conds[f := value];
    var both := Passing(added);
    forall c: Course ensures both(c) == (Passing(conds)(c) && Meets(c, f, value)) {
      if PassesAll(c, conds) && Meets(c, f, value) {
        forall g | g in added ensures Meets(c, g, added[g]) {
          if g != f {
            assert g in conds;
          }
        }
      }
      if PassesAll(c, added) {
        assert f in added;
        forall g | g in conds ensures Meets(c, g, conds[g]) {
          assert g in added && added[g] == conds[g];
        }
      }
    }
    FilterFilter(courses, Passing(conds), (c: Course) => Meets(c, f, value), both);
  }

  /** The required-course panel's state. */
  class RequiredCourse {
    /** The catalogue the panel is given. */
    var courses: seq<Course>
    /** `requiredCourseFilters` */
    var requiredCourseFilters: Conditions
    /** `filteredCourses` */
    var filteredCourses: seq<Course>
    /** The `requiredCourseFilters` entry of the browser storage, already parsed. */
    var saved: Option<Conditions>

    /** The shown list is the catalogue filtered by the current conditions. */
    predicate Valid()
      reads this
    {
      filteredCourses == Matching(courses, requiredCourseFilters)
    }

    /** The initial state: no condition, the whole catalogue shown. */
    constructor (courses: seq<Course>, saved: Option<Conditions>)
      ensures Valid()
      ensures this.courses == courses && this.saved == saved
      ensures requiredCourseFilters == map[] && filteredCourses == courses
    {
      this.courses := courses;
      this.saved := saved;
      requiredCourseFilters := map[];
      filteredCourses := courses;
      new;
      NoActiveConditionKeepsAll(courses, map[]);
    }

    /** `componentDidMount`: saved conditions, when present, replace the empty ones and are applied. */
    method Mount()
      requires Valid()
      modifies this
      ensures Valid()
      ensures saved.Some? ==> requiredCourseFilters == saved.value
      ensures saved.None? ==> requiredCourseFilters == old(requiredCourseFilters) && filteredCourses == old(filteredCourses)
      ensures courses == old(courses) && saved == old(saved)
    {
      if saved.Some? {
        requiredCourseFilters := saved.value;
        ApplyFilters();
      }
    }

    /** `applyFilters` */
    method ApplyFilters()
      modifies this
      ensures Valid()
      ensures filteredCourses == Matching(courses, requiredCourseFilters)
      ensures courses == old(courses) && requiredCourseFilters == old(requiredCourseFilters) && saved == old(saved)
    {
      filteredCourses := Matching(courses, requiredCourseFilters);
    }

    /**
      `handleRequiredCourseFilterChange`, followed by the `componentDidUpdate`
      it always triggers (the merge makes a new object): the conditions are
      merged, applied and saved.
    */
    method HandleRequiredCourseFilterChange(supplied: Conditions)
      modifies this
      ensures Valid()
      ensures requiredCourseFilters == Merge(old(requiredCourseFilters), supplied)
      ensures saved == Some(requiredCourseFilters)
      ensures courses == old(courses)
    {
      requiredCourseFilters := Merge(requiredCourseFilters, supplied);
      ApplyFilters();
      saved := Some(requiredCourseFilters);
    }
  }
}
