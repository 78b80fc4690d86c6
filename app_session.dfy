/**
  The selection session the top-level page keeps (the same in both
  application generations): the loaded catalogue, the set of selected
  courses (a JavaScript `Set` of course objects, kept here as a list in
  insertion order with no repeats), the time slots clicked in the
  timetable while the detective tab is open, and the persisted entry
  `selectedCoursesNumbers` (absent, or the list of saved course numbers).
  Each handler is one sequential state transition.
*/
module AppSession {
  import opened Outcomes
  import opened Courses
  import opened Seqs
  import Dedup

  /**
    `toggleSearchTimeSlot`: the index of the first slot with the same
    weekday and period decides; an absent slot is appended, otherwise
    the entry at that index (and only it) is removed.
  */
  function ToggleSlot(slots: seq<TimeSlot>, slot: TimeSlot): (r: seq<TimeSlot>)
    ensures slot !in slots ==> r == slots + [slot]
    ensures slot in slots ==> IsSubsequence(r, slots) && multiset(r) == multiset(slots) - multiset{slot}
  {
    var i := IndexOf(slots, slot);
    if i == -1 then slots + [slot]
    else
      assert slots == slots[..i] + [slot] + slots[i + 1..];
      DropOneIsSubsequence(slots, i);
      slots[..i] + slots[i + 1..]
  }

  lemma {:induction false} DropOneIsSubsequence<T>(s: seq<T>, i: nat)
    requires i < |s|
    ensures IsSubsequence(s[..i] + s[i + 1..], s)
  {
    var d := s[..i] + s[i + 1..];
    if i == 0 {
      assert d == s[1..];
      SkipHeadSubsequence(s[1..], s);
    } else {
      var t := s[1..];
      DropOneIsSubsequence(t, i - 1);
      assert d[0] == s[0] && d[1..] == t[..i - 1] + t[i..];
    }
  }

  lemma SkipHeadSubsequence<T>(a: seq<T>, b: seq<T>)
    requires b != [] && b[1..] == a
    ensures IsSubsequence(a, b)
  {
    SubsequenceReflexive(a);
  }

  /** Toggling a slot that is not selected, twice, gives the list back. */
  lemma ToggleSlotTwiceRestores(slots: seq<TimeSlot>, slot: TimeSlot)
    requires slot !in slots
    ensures ToggleSlot(ToggleSlot(slots, slot), slot) == slots
  {
    var once := slots + [slot];
    assert IndexOf(once, slot) == |slots| by {
      IndexOfAppended(slots, slot);
    }
    assert once[..|slots|] == slots;
  }

  lemma {:induction false} IndexOfAppended<T>(s: seq<T>, x: T)
    requires x !in s
    ensures IndexOf(s + [x], x) == |s|
  {
    if s != [] {
      assert (s + [x])[1..] == s[1..] + [x];
      IndexOfAppended(s[1..], x);
    }
  }

  /**
    Only the first matching entry goes: a slot listed twice is still
    selected after one toggle.
  */
  lemma ToggleRemovesOnlyFirstMatch(slot: TimeSlot)
    ensures ToggleSlot([slot, slot], slot) == [slot]
  {
    assert IndexOf([slot, slot], slot) == 0;
  }

  /** On a duplicate-free list the toggle flips membership of exactly that slot. */
  lemma ToggleSlotFlipsMembership(slots: seq<TimeSlot>, slot: TimeSlot)
    requires NoDups(slots)
    ensures NoDups(ToggleSlot(slots, slot))
    ensures forall x :: x in ToggleSlot(slots, slot) <==> (x in slots <==> x != slot)
  {
    if slot in slots {
      RemovedSlotGone(slots, slot);
    } else {
      AppendedSlotFresh(slots, slot);
    }
  }

  lemma RemovedSlotGone(slots: seq<TimeSlot>, slot: TimeSlot)
    requires NoDups(slots) && slot in slots
    ensures NoDups(ToggleSlot(slots, slot))
    ensures forall x :: x in ToggleSlot(slots, slot) <==> (x in slots && x != slot)
  {
    var r := ToggleSlot(slots, slot);
    var i := IndexOf(slots, slot);
    assert r == slots[..i] + slots[i + 1..];
    NoDupsCount(slots, slot);
    assert multiset(r)[slot] == 0;
    forall x ensures x in r <==> (x in slots && x != slot) {
      assert x in r <==> multiset(r)[x] > 0;
    }
    DropOneNoDups(slots, i);
  }

  lemma DropOneNoDups<T(!new)>(s: seq<T>, i: nat)
    requires NoDups(s) && i < |s|
    ensures NoDups(s[..i] + s[i + 1..])
  {
    var r := s[..i] + s[i + 1..];
    forall p, q | 0 <= p < q < |r| ensures r[p] != r[q] {
      var p' := if p < i then p else p + 1;
      var q' := if q < i then q else q + 1;
      assert r[p] == s[p'] && r[q] == s[q'];
    }
  }

  lemma AppendedSlotFresh(slots: seq<TimeSlot>, slot: TimeSlot)
    requires NoDups(slots) && slot !in slots
    ensures NoDups(ToggleSlot(slots, slot))
    ensures forall x :: x in ToggleSlot(slots, slot) <==> (x in slots || x == slot)
  {
    var r := ToggleSlot(slots, slot);
    forall p, q | 0 <= p < q < |r| ensures r[p] != r[q] {
      if q == |slots| {
        assert r[p] == slots[p];
      }
    }
  }

  /**
    `loadSelectedCourses`: the catalogue courses whose number was saved,
    in catalogue order, as a set.
  */
  function Rehydrate(courses: seq<Course>, saved: seq<string>): (r: seq<Course>)
    ensures NoDups(r)
    ensures forall c :: c in r <==> c in courses && c.number in saved
    ensures IsSubsequence(r, courses)
  {
    var kept := Filter(courses, (c: Course) => c.number in saved);
    var r := Distinct(kept);
    FilterIsSubsequence(courses, (c: Course) => c.number in saved);
    SubsequenceTransitive(r, kept, courses);
    r
  }

  /**
    Saving and reloading keeps the selection: when the catalogue numbers
    are distinct and every selected course comes from the catalogue,
    rehydrating from the persisted numbers selects the same courses.
  */
  lemma RehydrateRestoresSelection(courses: seq<Course>, selected: seq<Course>)
    requires NoDups(Numbers(courses))
    requires forall c :: c in selected ==> c in courses
    ensures forall c :: c in Rehydrate(courses, Numbers(selected)) <==> c in selected
  {
    forall c | c in courses && c.number in Numbers(selected)
      ensures c in selected
    {
      var j :| 0 <= j < |selected| && Numbers(selected)[j] == c.number;
      NumberIdentifiesCourse(courses, c, selected[j]);
    }
    forall c | c in selected ensures c.number in Numbers(selected) {
      var j :| 0 <= j < |selected| && selected[j] == c;
      assert Numbers(selected)[j] == c.number;
    }
  }

  /** In a catalogue with distinct numbers, a number names one course. */
  lemma NumberIdentifiesCourse(courses: seq<Course>, c: Course, d: Course)
    requires NoDups(Numbers(courses))
    requires c in courses && d in courses && c.number == d.number
    ensures c == d
  {
    var p :| 0 <= p < |courses| && courses[p] == c;
    var q :| 0 <= q < |courses| && courses[q] == d;
    assert Numbers(courses)[p] == Numbers(courses)[q];
    SameIndexWhenNoDups(Numbers(courses), p, q);
  }

  lemma SameIndexWhenNoDups(s: seq<string>, p: nat, q: nat)
    requires NoDups(s) && p < |s| && q < |s| && s[p] == s[q]
    ensures p == q
  {
  }

  class Session {
    /** `courses`: the loaded catalogue. */
    var courses: seq<Course>
    /** `selectedCourses`: a set, in insertion order. */
    var selectedCourses: seq<Course>
    /** `searchTimeSlot`: the clicked (weekday, period) cells. */
    var searchTimeSlot: seq<TimeSlot>
    /** The persisted `selectedCoursesNumbers` entry, if present. */
    var storage: Option<seq<string>>

    ghost predicate Valid()
      reads this
    {
      NoDups(selectedCourses)
    }

    /** The initial state: nothing loaded or selected; the saved entry is whatever the browser holds. */
    constructor (storage: Option<seq<string>>)
      ensures Valid()
      ensures courses == [] && selectedCourses == [] && searchTimeSlot == []
      ensures this.storage == storage
    {
      courses := [];
      selectedCourses := [];
      searchTimeSlot := [];
      this.storage := storage;
    }

    /**
      `handleCourseSelect`: add or remove one course, then persist the
      numbers of the new selection in its order.
    */
    method HandleCourseSelect(course: Course, isSelected: bool)
      requires Valid()
      modifies this
      ensures Valid()
      ensures selectedCourses == if isSelected then Insert(old(selectedCourses), course) else Delete(old(selectedCourses), course)
      ensures storage == Some(Numbers(selectedCourses))
      ensures courses == old(courses) && searchTimeSlot == old(searchTimeSlot)
    {
      if isSelected {
        selectedCourses := Insert(selectedCourses, course);
      } else {
        selectedCourses := Delete(selectedCourses, course);
      }
      storage := Some(Numbers(selectedCourses));
    }

    /** `handleClearAllSelectedCourses`: the saved entry is removed and the selection emptied. */
    method HandleClearAllSelectedCourses()
      modifies this
      ensures Valid()
      ensures selectedCourses == [] && storage == None
      ensures courses == old(courses) && searchTimeSlot == old(searchTimeSlot)
    {
      storage := None;
      selectedCourses := [];
    }

    /** `loadSelectedCourses`: nothing happens without a saved entry. */
    method LoadSelectedCourses()
      modifies this
      ensures storage.None? ==> selectedCourses == old(selectedCourses)
      ensures storage.Some? ==> selectedCourses == Rehydrate(courses, storage.value)
      ensures storage == old(storage) && courses == old(courses) && searchTimeSlot == old(searchTimeSlot)
    {
      if storage.Some? {
        selectedCourses := Rehydrate(courses, storage.value);
      }
    }

    /** The parsed catalogue rows arrive: they are deduplicated by triple, stored, and the saved selection is applied. */
    method ReceiveCourses(results: seq<Course>)
      modifies this
      ensures courses == Dedup.FilterUniqueCourses(results)
      ensures IsSubsequence(courses, results)
      ensures storage.None? ==> selectedCourses == old(selectedCourses)
      ensures storage.Some? ==> selectedCourses == Rehydrate(courses, storage.value)
      ensures storage == old(storage) && searchTimeSlot == old(searchTimeSlot)
    {
      courses := Dedup.FilterUniqueCourses(results);
      LoadSelectedCourses();
    }

    /** `toggleSearchTimeSlot` */
    method ToggleSearchTimeSlot(slot: TimeSlot)
      modifies this
      ensures searchTimeSlot == ToggleSlot(old(searchTimeSlot), slot)
      ensures courses == old(courses) && selectedCourses == old(selectedCourses) && storage == old(storage)
    {
      searchTimeSlot := ToggleSlot(searchTimeSlot, slot);
    }
  }

  /**
    Selecting a course and reloading the page restores it: after
    `HandleCourseSelect(course, true)` on a catalogue course, rehydrating
    from the persisted numbers finds exactly the selected courses.
  */
  lemma SelectSurvivesReload(courses: seq<Course>, selected: seq<Course>, course: Course)
    requires NoDups(Numbers(courses))
    requires course in courses && forall c :: c in selected ==> c in courses
    ensures forall c :: c in Rehydrate(courses, Numbers(Insert(selected, course))) <==> c in selected || c == course
  {
    RehydrateRestoresSelection(courses, Insert(selected, course));
  }
}
