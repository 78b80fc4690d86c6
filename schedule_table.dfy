/**
  The weekly timetable (the same code in both application generations).
  `createCourseTable` builds a dictionary from the cell key
  `"<weekday key>-<period key>"` to the selected courses meeting in that
  cell; clicking a cell toggles it in the session's searched time slots,
  but only while the course-detective tab is open.
*/
module ScheduleTable {
  import opened Outcomes
  import opened Config
  import opened Courses
  import opened Seqs
  import opened JsStrings
  import opened AppSession

  /** The label of the course-detective tab. */
  const DetectiveTab: string := "課程偵探"

  /** The dictionary key of the cell of day `d` and period `t`. */
  function CellKey(d: Weekday, t: char): (k: string)
    ensures |k| == |d.Key()| + 2 && k[|k| - 1] == t
  {
    d.Key() + "-" + [t]
  }

  lemma KeyDeterminesWeekday(d: Weekday, e: Weekday)
    requires d.Key() == e.Key()
    ensures d == e
  {
    assert WeekdayOfKey(d.Key()) == Some(d) by {
      match d
      case Monday =>
      case Tuesday =>
      case Wednesday =>
      case Thursday =>
      case Friday =>
      case Saturday =>
      case Sunday =>
    }
  }

  /** Different cells have different keys, so no cell overwrites another. */
  lemma CellKeyInjective(d: Weekday, t: char, e: Weekday, u: char)
    ensures CellKey(d, t) == CellKey(e, u) ==> d == e && t == u
  {
    if CellKey(d, t) == CellKey(e, u) {
      var k := CellKey(d, t);
      assert d.Key() == k[..|k| - 2] == e.Key();
      KeyDeterminesWeekday(d, e);
    }
  }

  /** `course[day] && course[day].includes(period)` */
  predicate InCell(c: Course, d: Weekday, t: char) {
    c.Periods(d) != "" && Includes(c.Periods(d), [t])
  }

  /** The cell test as the predicate handed to the filter. */
  function InCellTest(d: Weekday, t: char): Course -> bool {
    c => InCell(c, d, t)
  }

  /** The courses a cell lists: the selected ones that meet there, in selection order. */
  function CellCourses(selected: seq<Course>, d: Weekday, t: char): (r: seq<Course>)
    ensures forall c :: c in r <==> c in selected && t in c.Periods(d)
    ensures IsSubsequence(r, selected)
  {
    forall c: Course ensures InCell(c, d, t) <==> t in c.Periods(d) {
      IncludesChar(c.Periods(d), t);
    }
    FilterIsSubsequence(selected, InCellTest(d, t));
    Filter(selected, InCellTest(d, t))
  }

  lemma IncludesChar(s: string, t: char)
    ensures Includes(s, [t]) <==> t in s
  {
    if t in s {
      var i :| 0 <= i < |s| && s[i] == t;
      assert OccursAt(s, [t], i);
    }
    if Includes(s, [t]) {
      var i :| OccursAt(s, [t], i);
      assert s[i] == t;
    }
  }

  /** The keys `createCourseTable` creates: one per day and period of the configuration. */
  ghost predicate IsGridKey(k: string) {
    exists d: Weekday, t | t in TimeSlots :: k == CellKey(d, t)
  }

  /** The cells of the first `n` periods, for every day. */
  ghost predicate FilledUpTo(table: map<string, seq<Course>>, selected: seq<Course>, n: nat)
    requires n <= |TimeSlots|
  {
    forall d: Weekday, t | t in TimeSlots[..n] ::
      CellKey(d, t) in table && table[CellKey(d, t)] == CellCourses(selected, d, t)
  }

  /**
    The inner loop over the selection for one cell: every selected course
    meeting there is pushed, in order.
  */
  method CollectCell(selected: seq<Course>, d: Weekday, t: char) returns (cell: seq<Course>)
    ensures cell == CellCourses(selected, d, t)
  {
    cell := [];
    var i := 0;
    while i < |selected|
      invariant 0 <= i <= |selected|
      invariant cell == Filter(selected[..i], InCellTest(d, t))
    {
      var course := selected[i];
      FilterSnoc(selected, i, InCellTest(d, t));
      if InCell(course, d, t) {
        cell := cell + [course];
      }
      i := i + 1;
    }
    assert selected[..i] == selected;
  }

  /** `k` is the key of a cell of one of the first `n` periods. */
  ghost predicate EarlierKey(k: string, n: nat)
    requires n <= |TimeSlots|
  {
    exists d: Weekday, u | u in TimeSlots[..n] :: k == CellKey(d, u)
  }

  /** `k` is the key of the cell of period `n` on one of the first `m` days. */
  ghost predicate RowKey(k: string, n: nat, m: nat)
    requires n < |TimeSlots| && m <= |Weekdays|
  {
    exists d | d in Weekdays[..m] :: k == CellKey(d, TimeSlots[n])
  }

  /** The keys of the cells of the first `n` periods, and of period `n` for the first `m` days. */
  ghost predicate KeysUpTo(table: map<string, seq<Course>>, n: nat, m: nat)
    requires n < |TimeSlots| && m <= |Weekdays|
  {
    forall k :: k in table <==> EarlierKey(k, n) || RowKey(k, n, m)
  }

  /** The cells of period `n` for the first `m` days. */
  ghost predicate RowFilled(table: map<string, seq<Course>>, selected: seq<Course>, n: nat, m: nat)
    requires n < |TimeSlots| && m <= |Weekdays|
  {
    forall d | d in Weekdays[..m] ::
      CellKey(d, TimeSlots[n]) in table && table[CellKey(d, TimeSlots[n])] == CellCourses(selected, d, TimeSlots[n])
  }

  /**
    `createCourseTable`: for each period, for each day, the cell is
    created empty and receives the selected courses meeting there.
  */
  method CreateCourseTable(selected: seq<Course>) returns (table: map<string, seq<Course>>)
    ensures forall k :: k in table <==> IsGridKey(k)
    ensures forall d: Weekday, t | t in TimeSlots :: CellKey(d, t) in table && table[CellKey(d, t)] == CellCourses(selected, d, t)
  {
    table := map[];
    var ti := 0;
    while ti < |TimeSlots|
      invariant 0 <= ti <= |TimeSlots|
      invariant forall k :: k in table <==> EarlierKey(k, ti)
      invariant FilledUpTo(table, selected, ti)
    {
      table := FillPeriod(table, selected, ti);
      ti := ti + 1;
    }
    assert TimeSlots[..ti] == TimeSlots;
  }

  /** One pass of the outer loop: the cells of period `ti`, day by day. */
  method FillPeriod(table0: map<string, seq<Course>>, selected: seq<Course>, ti: nat) returns (table: map<string, seq<Course>>)
    requires ti < |TimeSlots|
    requires forall k :: k in table0 <==> EarlierKey(k, ti)
    requires FilledUpTo(table0, selected, ti)
    ensures forall k :: k in table <==> EarlierKey(k, ti + 1)
    ensures FilledUpTo(table, selected, ti + 1)
  {
    table := table0;
    var t := TimeSlots[ti];
    var wi := 0;
    assert KeysUpTo(table, ti, 0);
    while wi < |Weekdays|
      invariant 0 <= wi <= |Weekdays|
      invariant KeysUpTo(table, ti, wi)
      invariant FilledUpTo(table, selected, ti)
      invariant RowFilled(table, selected, ti, wi)
    {
      var d := Weekdays[wi];
      var cell := CollectCell(selected, d, t);
      ghost var before := table;
      table := table[CellKey(d, t) := cell];
      KeepsEarlierPeriods(before, table, selected, ti, wi);
      KeepsEarlierDays(before, table, selected, ti, wi);
      wi := wi + 1;
    }
    WholeRow(table, selected, ti);
  }

  /** Storing day `wi`'s cell of period `ti` leaves the earlier periods' cells alone. */
  lemma KeepsEarlierPeriods(before: map<string, seq<Course>>, after: map<string, seq<Course>>, selected: seq<Course>, ti: nat, wi: nat)
    requires ti < |TimeSlots| && wi < |Weekdays|
    requires FilledUpTo(before, selected, ti)
    requires after == before[CellKey(Weekdays[wi], TimeSlots[ti]) := CellCourses(selected, Weekdays[wi], TimeSlots[ti])]
    ensures FilledUpTo(after, selected, ti)
  {
    forall e: Weekday, u | u in TimeSlots[..ti] ensures CellKey(e, u) != CellKey(Weekdays[wi], TimeSlots[ti]) {
      CellKeyInjective(e, u, Weekdays[wi], TimeSlots[ti]);
      TimeSlotsDistinct(ti);
    }
  }

  /** Storing day `wi`'s cell of period `ti` extends the row by that day. */
  lemma KeepsEarlierDays(before: map<string, seq<Course>>, after: map<string, seq<Course>>, selected: seq<Course>, ti: nat, wi: nat)
    requires ti < |TimeSlots| && wi < |Weekdays|
    requires KeysUpTo(before, ti, wi) && RowFilled(before, selected, ti, wi)
    requires after == before[CellKey(Weekdays[wi], TimeSlots[ti]) := CellCourses(selected, Weekdays[wi], TimeSlots[ti])]
    ensures KeysUpTo(after, ti, wi + 1) && RowFilled(after, selected, ti, wi + 1)
  {
    assert Weekdays[..wi + 1] == Weekdays[..wi] + [Weekdays[wi]];
    KeysGrowByDay(before, after, ti, wi);
    RowGrowsByDay(before, after, selected, ti, wi);
  }

  lemma KeysGrowByDay(before: map<string, seq<Course>>, after: map<string, seq<Course>>, ti: nat, wi: nat)
    requires ti < |TimeSlots| && wi < |Weekdays|
    requires KeysUpTo(before, ti, wi) && after.Keys == before.Keys + {CellKey(Weekdays[wi], TimeSlots[ti])}
    ensures KeysUpTo(after, ti, wi + 1)
  {
    forall k ensures k in after <==> EarlierKey(k, ti) || RowKey(k, ti, wi + 1) {
      RowKeyStep(k, ti, wi);
    }
  }

  /** One more day in the row adds that day's key. */
  lemma RowKeyStep(k: string, n: nat, m: nat)
    requires n < |TimeSlots| && m < |Weekdays|
    ensures RowKey(k, n, m + 1) <==> RowKey(k, n, m) || k == CellKey(Weekdays[m], TimeSlots[n])
  {
    assert Weekdays[..m + 1] == Weekdays[..m] + [Weekdays[m]];
  }

  /** The keys of one more period are the earlier ones and that period's whole row. */
  lemma EarlierKeyStep(k: string, n: nat)
    requires n < |TimeSlots|
    ensures EarlierKey(k, n + 1) <==> EarlierKey(k, n) || RowKey(k, n, |Weekdays|)
  {
    assert TimeSlots[..n + 1] == TimeSlots[..n] + [TimeSlots[n]];
    assert Weekdays[..|Weekdays|] == Weekdays;
    WeekdaysComplete();
  }

  lemma RowGrowsByDay(before: map<string, seq<Course>>, after: map<string, seq<Course>>, selected: seq<Course>, ti: nat, wi: nat)
    requires ti < |TimeSlots| && wi < |Weekdays|
    requires Weekdays[..wi + 1] == Weekdays[..wi] + [Weekdays[wi]]
    requires RowFilled(before, selected, ti, wi)
    requires after == before[CellKey(Weekdays[wi], TimeSlots[ti]) := CellCourses(selected, Weekdays[wi], TimeSlots[ti])]
    ensures RowFilled(after, selected, ti, wi + 1)
  {
    forall e | e in Weekdays[..wi] ensures CellKey(e, TimeSlots[ti]) != CellKey(Weekdays[wi], TimeSlots[ti]) {
      CellKeyInjective(e, TimeSlots[ti], Weekdays[wi], TimeSlots[ti]);
      WeekdaysDistinct(wi);
    }
  }

  /** After all seven days, period `ti` joins the finished periods. */
  lemma WholeRow(table: map<string, seq<Course>>, selected: seq<Course>, ti: nat)
    requires ti < |TimeSlots|
    requires KeysUpTo(table, ti, |Weekdays|) && FilledUpTo(table, selected, ti) && RowFilled(table, selected, ti, |Weekdays|)
    ensures forall k :: k in table <==> EarlierKey(k, ti + 1)
    ensures FilledUpTo(table, selected, ti + 1)
  {
    forall k ensures k in table <==> EarlierKey(k, ti + 1) {
      EarlierKeyStep(k, ti);
    }
    assert TimeSlots[..ti + 1] == TimeSlots[..ti] + [TimeSlots[ti]];
    assert Weekdays[..|Weekdays|] == Weekdays;
    WeekdaysComplete();
  }

  /** The period at position `i` does not occur before it. */
  lemma TimeSlotsDistinct(i: nat)
    requires i < |TimeSlots|
    ensures TimeSlots[i] !in TimeSlots[..i]
  {
  }

  /** The day at position `i` does not occur before it. */
  lemma WeekdaysDistinct(i: nat)
    requires i < |Weekdays|
    ensures Weekdays[i] !in Weekdays[..i]
  {
    WeekdaysComplete();
  }

  /** No course is listed twice in one cell. */
  lemma CellHasNoRepeats(selected: seq<Course>, d: Weekday, t: char)
    requires NoDups(selected)
    ensures NoDups(CellCourses(selected, d, t))
  {
    FilterNoDups(selected, InCellTest(d, t));
  }

  /** With nothing selected every cell is empty. */
  lemma EmptySelectionEmptyCells(d: Weekday, t: char)
    ensures CellCourses([], d, t) == []
  {
  }

  /** `isTimeSlotSelected`: `searchTimeSlot.some(...)` on the detective tab, `false` elsewhere. */
  function IsTimeSlotSelected(currentTab: string, searchTimeSlot: seq<TimeSlot>, weekday: Weekday, timeSlot: string): (r: bool)
    ensures r <==> currentTab == DetectiveTab && TimeSlot(weekday, timeSlot) in searchTimeSlot
  {
    if currentTab != DetectiveTab then false
    else SomeSlotMatches(searchTimeSlot, weekday, timeSlot)
  }

  /** Some listed slot has this weekday and this period. */
  function SomeSlotMatches(slots: seq<TimeSlot>, weekday: Weekday, timeSlot: string): (r: bool)
    ensures r <==> TimeSlot(weekday, timeSlot) in slots
  {
    if slots == [] then false
    else (slots[0].weekday == weekday && slots[0].timeSlot == timeSlot) || SomeSlotMatches(slots[1..], weekday, timeSlot)
  }

  /** `toggleTimeSlotSelect`: ignored unless the detective tab is open. */
  method ToggleTimeSlotSelect(session: Session, currentTab: string, weekday: Weekday, timeSlot: string)
    modifies session
    ensures currentTab == DetectiveTab ==> session.searchTimeSlot == ToggleSlot(old(session.searchTimeSlot), TimeSlot(weekday, timeSlot))
    ensures currentTab != DetectiveTab ==> session.searchTimeSlot == old(session.searchTimeSlot)
    ensures session.courses == old(session.courses) && session.selectedCourses == old(session.selectedCourses)
    ensures session.storage == old(session.storage)
  {
    if currentTab != DetectiveTab {
      return;
    }
    session.ToggleSearchTimeSlot(TimeSlot(weekday, timeSlot));
  }

  /**
    Clicking a cell on the detective tab flips that cell's highlight and
    no other (when the searched slots have no repeats).
  */
  lemma ClickFlipsOnlyThatCell(slots: seq<TimeSlot>, weekday: Weekday, timeSlot: string, d: Weekday, t: string)
    requires NoDups(slots)
    ensures IsTimeSlotSelected(DetectiveTab, ToggleSlot(slots, TimeSlot(weekday, timeSlot)), d, t) <==>
      (IsTimeSlotSelected(DetectiveTab, slots, d, t) <==> (d, t) != (weekday, timeSlot))
  {
    ToggleSlotFlipsMembership(slots, TimeSlot(weekday, timeSlot));
  }
}
