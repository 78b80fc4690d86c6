/**
  Editing one advanced filter row: the prefix search over a row's
  option list, the six update handlers of both generations, the count
  shown on a dropdown row, and the option-to-display-name lookup. Every
  handler returns the whole filter map with only the edited row
  replaced.
*/
module FilterRow {
  import opened Outcomes
  import opened Config
  import opened Seqs
  import opened JsStrings
  import opened AllCourseTsx
  import AllCourseJsx

  // ------------------------------------------------------- prefix search

  /** `optionDisplayName && optionDisplayName.length > 0` */
  predicate HasDisplayName(spec: FilterOptionSpec) {
    spec.optionDisplayName.Some? && |spec.optionDisplayName.value| > 0
  }

  /** Every option has a display name to read when display names are used; otherwise the read throws. */
  predicate DisplayNamesCover(spec: FilterOptionSpec) {
    HasDisplayName(spec) ==> |spec.options| <= |spec.optionDisplayName.value|
  }

  /**
    Option `i` is listed for `search`: its lowercased display name
    starts with the lowercased search text when display names exist (the
    newer generation falls back to the option for an empty display
    name), and the lowercased option does otherwise.
  */
  predicate Visible(gen: Generation, spec: FilterOptionSpec, i: nat, search: string)
    requires i < |spec.options| && DisplayNamesCover(spec)
  {
    var needle := ToLower(search);
    if HasDisplayName(spec) && (gen == Jsx || ToLower(spec.optionDisplayName.value[i]) != "") then
      StartsWith(ToLower(spec.optionDisplayName.value[i]), needle)
    else
      StartsWith(ToLower(spec.options[i]), needle)
  }

  function FilteredFrom(gen: Generation, spec: FilterOptionSpec, search: string, i: nat): (r: seq<string>)
    requires i <= |spec.options| && DisplayNamesCover(spec)
    ensures IsSubsequence(r, spec.options[i..])
    ensures forall j :: i <= j < |spec.options| && Visible(gen, spec, j, search) ==> spec.options[j] in r
    ensures forall x :: x in r ==> exists j :: i <= j < |spec.options| && Visible(gen, spec, j, search) && spec.options[j] == x
    decreases |spec.options| - i
  {
    if i == |spec.options| then []
    else
      var rest := FilteredFrom(gen, spec, search, i + 1);
      assert spec.options[i..][1..] == spec.options[i + 1..];
      if Visible(gen, spec, i, search) then [spec.options[i]] + rest else rest
  }

  /** `generateFilteredOptions`: the listed options, in their original order. */
  function GenerateFilteredOptions(gen: Generation, spec: FilterOptionSpec, search: string): (r: Outcome<seq<string>>)
    ensures r.Throws? <==> !DisplayNamesCover(spec)
    ensures r.Value? ==> IsSubsequence(r.value, spec.options)
    ensures r.Value? ==> forall j :: 0 <= j < |spec.options| && Visible(gen, spec, j, search) ==> spec.options[j] in r.value
    ensures r.Value? ==> forall x :: x in r.value ==> exists j :: 0 <= j < |spec.options| && Visible(gen, spec, j, search) && spec.options[j] == x
  {
    if !DisplayNamesCover(spec) then Throws
    else
      assert spec.options[0..] == spec.options;
      Value(FilteredFrom(gen, spec, search, 0))
  }

  lemma {:induction false} FilteredFromAll(gen: Generation, spec: FilterOptionSpec, i: nat)
    requires i <= |spec.options| && DisplayNamesCover(spec)
    ensures FilteredFrom(gen, spec, "", i) == spec.options[i..]
    decreases |spec.options| - i
  {
    if i < |spec.options| {
      FilteredFromAll(gen, spec, i + 1);
      EverythingVisible(gen, spec, i);
      VisibleStep(gen, spec, "", i);
      assert spec.options[i..] == [spec.options[i]] + spec.options[i + 1..];
    }
  }

  /** Every option starts with the empty search text. */
  lemma EverythingVisible(gen: Generation, spec: FilterOptionSpec, i: nat)
    requires i < |spec.options| && DisplayNamesCover(spec)
    ensures Visible(gen, spec, i, "")
  {
    assert ToLower("") == "";
  }

  lemma VisibleStep(gen: Generation, spec: FilterOptionSpec, search: string, i: nat)
    requires i < |spec.options| && DisplayNamesCover(spec) && Visible(gen, spec, i, search)
    ensures FilteredFrom(gen, spec, search, i) == [spec.options[i]] + FilteredFrom(gen, spec, search, i + 1)
  {
  }

  /** An empty search lists every option. */
  lemma EmptySearchListsAll(gen: Generation, spec: FilterOptionSpec)
    requires DisplayNamesCover(spec)
    ensures GenerateFilteredOptions(gen, spec, "") == Value(spec.options)
  {
    FilteredFromAll(gen, spec, 0);
    assert spec.options[0..] == spec.options;
  }

  /** The default option lists never make the search throw. */
  lemma DefaultOptionsSearchable(n: FilterName, gen: Generation, search: string)
    ensures GenerateFilteredOptions(gen, DefaultFilterOptions(n), search).Value?
  {
  }

  // ------------------------------------------------ newer handlers (TSX)

  /** `activeOptions` holds `true` only: what the newer handlers ever store. */
  predicate TrueOnly(opts: map<string, bool>) {
    forall k | k in opts :: opts[k]
  }

  predicate RowsTrueOnly(filters: AdvancedFilters) {
    forall m | m in filters :: TrueOnly(filters[m].activeOptions)
  }

  /** `handleFilterModeChange` */
  function SetMode(filters: AdvancedFilters, n: FilterName, mode: Logic): (r: AdvancedFilters)
    requires n in filters
    ensures r.Keys == filters.Keys
    ensures forall m | m in filters && m != n :: r[m] == filters[m]
    ensures r[n].filterLogic == Some(mode)
    ensures r[n].active == filters[n].active && r[n].value == filters[n].value
    ensures r[n].activeOptions == filters[n].activeOptions
  {
    filters[n := filters[n].(filterLogic := Some(mode))]
  }

  /** Every listed option switched on. */
  function AllOn(options: seq<string>): (opts: map<string, bool>)
    ensures forall k :: IsOn(opts, k) <==> k in options
    ensures TrueOnly(opts)
  {
    map o | o in options :: true
  }

  /**
    The row the newer page renders for a filter that has none: the
    fallback of `advancedFilters[filterName] || {...}` and of the `?.`/`??`
    reads in `handleDeselectAll`.
  */
  function DefaultRow(): (e: FilterElement)
    ensures !e.active && e.value == "" && e.filterLogic == Some(Include)
    ensures forall k :: !IsOn(e.activeOptions, k)
  {
    FilterElement(false, "", Some(Include), map[])
  }

  /**
    `handleSelectAll`: every option on, text cleared, `active` and
    `filterLogic` copied. The copy reads `.active` of the row without a
    guard, so it throws when the row is missing.
  */
  function SelectAll(filters: AdvancedFilters, n: FilterName, options: seq<string>): (r: Outcome<AdvancedFilters>)
    ensures r.Throws? <==> n !in filters
    ensures r.Value? ==> r.value.Keys == filters.Keys
    ensures r.Value? ==> forall m | m in filters && m != n :: r.value[m] == filters[m]
    ensures r.Value? ==> r.value[n].value == "" && r.value[n].active == filters[n].active && r.value[n].filterLogic == filters[n].filterLogic
    ensures r.Value? ==> forall k :: IsOn(r.value[n].activeOptions, k) <==> k in options
    ensures r.Value? && RowsTrueOnly(filters) ==> RowsTrueOnly(r.value)
  {
    if n !in filters then Throws
    else Value(filters[n := FilterElement(filters[n].active, "", filters[n].filterLogic, AllOn(options))])
  }

  /**
    `handleDeselectAll`: no option on, text cleared; a missing row reads
    as inactive with the mode defaulting to include.
  */
  function DeselectAll(filters: AdvancedFilters, n: FilterName): (r: AdvancedFilters)
    ensures r.Keys == filters.Keys + {n}
    ensures forall m | m in filters && m != n :: r[m] == filters[m]
    ensures n in filters ==> r[n].value == "" && r[n].active == filters[n].active
    ensures n in filters ==> r[n].filterLogic == Some(LogicOrInclude(filters[n].filterLogic))
    ensures n !in filters ==> r[n] == DefaultRow()
    ensures forall k :: !IsOn(r[n].activeOptions, k)
    ensures RowsTrueOnly(filters) ==> RowsTrueOnly(r)
  {
    if n in filters then filters[n := FilterElement(filters[n].active, "", Some(LogicOrInclude(filters[n].filterLogic)), map[])]
    else filters[n := DefaultRow()]
  }

  /** Deletes a truthy key, otherwise stores `true`. */
  function ToggleOption(opts: map<string, bool>, option: string): (r: map<string, bool>)
    ensures IsOn(r, option) <==> !IsOn(opts, option)
    ensures forall k | k != option :: (k in r <==> k in opts) && (k in r ==> r[k] == opts[k])
    ensures TrueOnly(opts) ==> TrueOnly(r)
  {
    if IsOn(opts, option) then opts - {option} else opts[option := true]
  }

  /**
    `handleOptionSelect`: toggles one option of the row. A missing row is
    spread from `{}`, whose `activeOptions` is `undefined`, so the read
    of `activeOptions[option]` throws. The source toggles the key inside
    the options object the previous state shares; here the result is a
    new map, and that shared mutation is not modelled.
  */
  function SelectOption(filters: AdvancedFilters, n: FilterName, option: string): (r: Outcome<AdvancedFilters>)
    ensures r.Throws? <==> n !in filters
    ensures r.Value? ==> r.value.Keys == filters.Keys
    ensures r.Value? ==> forall m | m in filters && m != n :: r.value[m] == filters[m]
    ensures r.Value? ==> r.value[n] == filters[n].(activeOptions := ToggleOption(filters[n].activeOptions, option))
    ensures r.Value? && RowsTrueOnly(filters) ==> RowsTrueOnly(r.value)
  {
    if n !in filters then Throws
    else Value(filters[n := filters[n].(activeOptions := ToggleOption(filters[n].activeOptions, option))])
  }

  /**
    The filters the newer page starts from when only the older page's
    `basicFilter` entry is saved: `advancedFilters` becomes `{}`. Select
    all and clicking an option then throw for every row, while deselect
    all fills in the default row.
  */
  lemma UpgradedFiltersThrow(n: FilterName, options: seq<string>, option: string)
    ensures SelectAll(map[], n, options) == Throws
    ensures SelectOption(map[], n, option) == Throws
    ensures DeselectAll(map[], n) == map[n := DefaultRow()]
  {
  }

  /** `advancedFilters[filterName] || {...}`: the row as the newer page renders it. */
  function RowOrDefault(filters: AdvancedFilters, n: FilterName): (e: FilterElement)
    ensures n in filters ==> e == filters[n]
    ensures n !in filters ==> e == DefaultRow()
  {
    if n in filters then filters[n] else DefaultRow()
  }

  /** Select all reading the rendered row, as deselect all does: it never throws. */
  function SelectAllFixed(filters: AdvancedFilters, n: FilterName, options: seq<string>): (r: AdvancedFilters)
    ensures r.Keys == filters.Keys + {n}
    ensures forall m | m in filters && m != n :: r[m] == filters[m]
    ensures r[n].value == "" && r[n].active == RowOrDefault(filters, n).active
    ensures r[n].filterLogic == RowOrDefault(filters, n).filterLogic
    ensures forall k :: IsOn(r[n].activeOptions, k) <==> k in options
    ensures RowsTrueOnly(filters) ==> RowsTrueOnly(r)
  {
    var row := RowOrDefault(filters, n);
    filters[n := FilterElement(row.active, "", row.filterLogic, AllOn(options))]
  }

  /** Option select reading the rendered row: it never throws. */
  function SelectOptionFixed(filters: AdvancedFilters, n: FilterName, option: string): (r: AdvancedFilters)
    ensures r.Keys == filters.Keys + {n}
    ensures forall m | m in filters && m != n :: r[m] == filters[m]
    ensures r[n] == RowOrDefault(filters, n).(activeOptions := ToggleOption(RowOrDefault(filters, n).activeOptions, option))
    ensures RowsTrueOnly(filters) ==> RowsTrueOnly(r)
  {
    var row := RowOrDefault(filters, n);
    filters[n := row.(activeOptions := ToggleOption(row.activeOptions, option))]
  }

  /**
    The corrected handlers agree with the handlers as written wherever
    those do not throw, and on the upgraded state they select exactly
    the listed options, or exactly the clicked one.
  */
  lemma FixedHandlersAgree(filters: AdvancedFilters, n: FilterName, options: seq<string>, option: string)
    ensures n in filters ==> SelectAll(filters, n, options) == Value(SelectAllFixed(filters, n, options))
    ensures n in filters ==> SelectOption(filters, n, option) == Value(SelectOptionFixed(filters, n, option))
    ensures forall k :: IsOn(SelectAllFixed(map[], n, options)[n].activeOptions, k) <==> k in options
    ensures forall k :: IsOn(SelectOptionFixed(map[], n, option)[n].activeOptions, k) <==> k == option
  {
  }

  /** Toggling an option twice restores which options are on. */
  lemma ToggleTwiceRestores(opts: map<string, bool>, option: string)
    ensures forall k :: IsOn(ToggleOption(ToggleOption(opts, option), option), k) <==> IsOn(opts, k)
  {
  }

  /** `handleTextFilterChange` */
  function SetText(filters: AdvancedFilters, n: FilterName, value: string): (r: AdvancedFilters)
    requires n in filters
    ensures r.Keys == filters.Keys
    ensures forall m | m in filters && m != n :: r[m] == filters[m]
    ensures r[n].value == value && r[n].active == filters[n].active
    ensures r[n].filterLogic == filters[n].filterLogic && r[n].activeOptions == filters[n].activeOptions
  {
    filters[n := filters[n].(value := value)]
  }

  /** `handleFilterActivationChange` */
  function ToggleActive(filters: AdvancedFilters, n: FilterName): (r: AdvancedFilters)
    requires n in filters
    ensures r.Keys == filters.Keys
    ensures forall m | m in filters && m != n :: r[m] == filters[m]
    ensures r[n].active == !filters[n].active
    ensures r[n].value == filters[n].value && r[n].filterLogic == filters[n].filterLogic
    ensures r[n].activeOptions == filters[n].activeOptions
  {
    filters[n := filters[n].(active := !filters[n].active)]
  }

  /** Flipping the switch twice restores the filters. */
  lemma ToggleActiveTwice(filters: AdvancedFilters, n: FilterName)
    requires n in filters
    ensures ToggleActive(ToggleActive(filters, n), n) == filters
  {
  }

  /**
    Options edited only through the handlers are never `false`, so in
    星期 equal mode a course passes only when all seven days are on and
    it meets on all seven.
  */
  lemma HandlersMakeWeekdayEqualStrict(filters: AdvancedFilters, c: Courses.Course)
    requires ByWeekday in filters && RowsTrueOnly(filters)
    ensures WeekdaysEqual(c, filters[ByWeekday].activeOptions) <==>
      forall d: Weekday :: d.Key() in filters[ByWeekday].activeOptions && c.Periods(d) != ""
  {
    WeekdayEqualWithTrueOnlyOptions(c, filters[ByWeekday].activeOptions);
  }

  // ------------------------------------------------ older handlers (JSX)

  type FlatFilters = map<FilterName, AllCourseJsx.FlatFilter>

  /** No row carries the `include` key that the older filter reads. */
  predicate NoIncludeKey(filters: FlatFilters) {
    forall m | m in filters :: filters[m].includeFlag.None?
  }

  /** `advancedFilters[filterName] || {}` */
  function RowOrEmpty(filters: FlatFilters, n: FilterName): AllCourseJsx.FlatFilter {
    if n in filters then filters[n] else AllCourseJsx.FlatFilter(None, None, None, None, map[])
  }

  /** `row?.active ?? false` */
  function ActiveOrFalse(filters: FlatFilters, n: FilterName): bool {
    var a := RowOrEmpty(filters, n).active;
    if a.Some? then a.value else false
  }

  /** `row?.filterLogic ?? 'include'` */
  function ModeOrInclude(filters: FlatFilters, n: FilterName): Logic {
    LogicOrInclude(RowOrEmpty(filters, n).filterLogic)
  }

  function SetFlatMode(filters: FlatFilters, n: FilterName, mode: Logic): (r: FlatFilters)
    ensures r.Keys == filters.Keys + {n}
    ensures forall m | m in filters && m != n :: r[m] == filters[m]
    ensures r[n] == RowOrEmpty(filters, n).(filterLogic := Some(mode))
    ensures NoIncludeKey(filters) ==> NoIncludeKey(r)
  {
    filters[n := RowOrEmpty(filters, n).(filterLogic := Some(mode))]
  }

  /** `handleSelectAll` (older): a fresh row of `active`, `filterLogic` and one `true` per option; `value` is dropped. */
  function SelectAllFlat(filters: FlatFilters, n: FilterName, options: seq<string>): (r: FlatFilters)
    ensures r.Keys == filters.Keys + {n}
    ensures forall m | m in filters && m != n :: r[m] == filters[m]
    ensures r[n].active == Some(ActiveOrFalse(filters, n)) && r[n].filterLogic == Some(ModeOrInclude(filters, n))
    ensures r[n].value.None? && r[n].includeFlag.None?
    ensures forall k :: IsOn(r[n].flags, k) <==> k in options
    ensures NoIncludeKey(filters) ==> NoIncludeKey(r)
  {
    filters[n := AllCourseJsx.FlatFilter(Some(ActiveOrFalse(filters, n)), None, Some(ModeOrInclude(filters, n)), None, AllOn(options))]
  }

  /** `handleDeselectAll` (older): only `active` and `filterLogic` remain. */
  function DeselectAllFlat(filters: FlatFilters, n: FilterName): (r: FlatFilters)
    ensures r.Keys == filters.Keys + {n}
    ensures forall m | m in filters && m != n :: r[m] == filters[m]
    ensures r[n] == AllCourseJsx.FlatFilter(Some(ActiveOrFalse(filters, n)), None, Some(ModeOrInclude(filters, n)), None, map[])
    ensures NoIncludeKey(filters) ==> NoIncludeKey(r)
  {
    filters[n := AllCourseJsx.FlatFilter(Some(ActiveOrFalse(filters, n)), None, Some(ModeOrInclude(filters, n)), None, map[])]
  }

  /** `selected[option] = !selected[option]`: a `false` entry is kept rather than deleted. */
  function NegateOption(flags: map<string, bool>, option: string): (r: map<string, bool>)
    ensures option in r && r[option] == !IsOn(flags, option)
    ensures forall k | k != option :: (k in r <==> k in flags) && (k in r ==> r[k] == flags[k])
  {
    flags[option := !IsOn(flags, option)]
  }

  function SelectOptionFlat(filters: FlatFilters, n: FilterName, option: string): (r: FlatFilters)
    ensures r.Keys == filters.Keys + {n}
    ensures forall m | m in filters && m != n :: r[m] == filters[m]
    ensures r[n] == RowOrEmpty(filters, n).(flags := NegateOption(RowOrEmpty(filters, n).flags, option))
    ensures NoIncludeKey(filters) ==> NoIncludeKey(r)
  {
    var row := RowOrEmpty(filters, n);
    filters[n := row.(flags := NegateOption(row.flags, option))]
  }

  function SetFlatText(filters: FlatFilters, n: FilterName, value: string): (r: FlatFilters)
    ensures r.Keys == filters.Keys + {n}
    ensures forall m | m in filters && m != n :: r[m] == filters[m]
    ensures r[n] == RowOrEmpty(filters, n).(value := Some(value))
    ensures NoIncludeKey(filters) ==> NoIncludeKey(r)
  {
    filters[n := RowOrEmpty(filters, n).(value := Some(value))]
  }

  function ToggleFlatActive(filters: FlatFilters, n: FilterName): (r: FlatFilters)
    ensures r.Keys == filters.Keys + {n}
    ensures forall m | m in filters && m != n :: r[m] == filters[m]
    ensures r[n] == RowOrEmpty(filters, n).(active := Some(!ActiveOrFalse(filters, n)))
    ensures NoIncludeKey(filters) ==> NoIncludeKey(r)
  {
    filters[n := RowOrEmpty(filters, n).(active := Some(!ActiveOrFalse(filters, n)))]
  }

  /**
    The older editor writes the mode to `filterLogic` while the older
    filter reads `include`: for a row without `include` (every row the
    handlers produce, since none of them writes that key) the chosen mode
    makes no difference to the filter.
  */
  lemma ModeIgnoredWithoutIncludeKey(c: Courses.Course, n: FilterName, row: AllCourseJsx.FlatFilter, mode: Logic)
    requires row.includeFlag.None?
    ensures AllCourseJsx.EntryOutcome(c, n, row.(filterLogic := Some(mode))) ==
      AllCourseJsx.EntryOutcome(c, n, row.(filterLogic := Some(Include)))
  {
  }

  /**
    The count on a dropdown row: keys other than `active` and
    `filterLogic` whose value is truthy, namely the switched-on options,
    a non-empty `value` and a `true` `include`.
  */
  function SelectedCount(row: AllCourseJsx.FlatFilter): (count: nat)
    ensures count >= |OnKeys(row.flags)|
    ensures row.value.None? && row.includeFlag.None? ==> count == |OnKeys(row.flags)|
  {
    |OnKeys(row.flags)| +
    (if row.value.Some? && row.value.value != "" then 1 else 0) +
    (if row.includeFlag == Some(true) then 1 else 0)
  }

  /** The switched-on option keys. */
  function OnKeys(flags: map<string, bool>): set<string> {
    set k | k in flags && flags[k]
  }

  /** Selecting all lists every distinct option in the count. */
  lemma SelectAllCount(filters: FlatFilters, n: FilterName, options: seq<string>)
    ensures SelectedCount(SelectAllFlat(filters, n, options)[n]) == |set o | o in options|
  {
    var flags := SelectAllFlat(filters, n, options)[n].flags;
    assert OnKeys(flags) == set o | o in options;
  }

  /** Deselecting all shows a count of zero. */
  lemma DeselectAllCount(filters: FlatFilters, n: FilterName)
    ensures SelectedCount(DeselectAllFlat(filters, n)[n]) == 0
  {
    var flags := DeselectAllFlat(filters, n)[n].flags;
    assert flags == map[];
    assert OnKeys(flags) == {};
  }

  // -------------------------------------------- display name (app-old)

  /**
    `filterNameToDisplayName`: the display name at the option's first
    index when there is one and it is non-empty, else the option itself.
  */
  function DisplayNameOf(filterOptions: map<FilterName, FilterOptionSpec>, n: FilterName, optionName: string): (r: string)
    ensures n !in filterOptions || filterOptions[n].optionDisplayName.None? ==> r == optionName
    ensures n in filterOptions && filterOptions[n].optionDisplayName.Some? ==>
      var spec := filterOptions[n];
      var names := spec.optionDisplayName.value;
      var i := IndexOf(spec.options, optionName);
      if optionName in spec.options && i < |names| && names[i] != "" then r == names[i] else r == optionName
  {
    if n in filterOptions && filterOptions[n].optionDisplayName.Some? then
      var spec := filterOptions[n];
      var names := spec.optionDisplayName.value;
      var index := IndexOf(spec.options, optionName);
      if index != -1 && index < |names| && names[index] != "" then names[index] else optionName
    else optionName
  }

  /** With the default options, a 星期 key shows as its one-character weekday name. */
  lemma WeekdayDisplayNames(d: Weekday)
    ensures DisplayNameOf(map[ByWeekday := DefaultFilterOptions(ByWeekday)], ByWeekday, d.Key()) == d.DisplayName()
  {
    DefaultWeekdayOptionsMatchTimetable();
    WeekdayNamesFrom(DefaultFilterOptions(ByWeekday), d);
  }

  /** `WeekdayDisplayNames` for any 星期 options that list the weekday keys and names in timetable order. */
  lemma WeekdayNamesFrom(spec: FilterOptionSpec, d: Weekday)
    requires spec.optionDisplayName.Some? && |spec.options| == 7 && |spec.optionDisplayName.value| == 7
    requires forall i :: 0 <= i < 7 ==>
      spec.options[i] == Weekdays[i].Key() && spec.optionDisplayName.value[i] == Weekdays[i].DisplayName()
    ensures DisplayNameOf(map[ByWeekday := spec], ByWeekday, d.Key()) == d.DisplayName()
  {
    WeekdaysComplete();
    assert d in Weekdays;
    var k :| 0 <= k < |Weekdays| && Weekdays[k] == d;
    KeyIndex(spec.options, d, k);
    DisplayNameAt(map[ByWeekday := spec], ByWeekday, d.Key(), k);
  }

  /** In a list of the seven weekday keys in timetable order, a weekday's key is first found at its own position. */
  lemma KeyIndex(options: seq<string>, d: Weekday, k: int)
    requires 0 <= k < 7 <= |options| && Weekdays[k] == d
    requires forall j :: 0 <= j < 7 ==> options[j] == Weekdays[j].Key()
    ensures IndexOf(options, d.Key()) == k
  {
    WeekdaysComplete();
    var i := IndexOf(options, d.Key());
    assert options[k] == d.Key();
    KeyInjective(Weekdays[i], d);
  }

  /** An option found at index `i` with a non-empty display name shows as that name. */
  lemma DisplayNameAt(filterOptions: map<FilterName, FilterOptionSpec>, n: FilterName, optionName: string, i: int)
    requires n in filterOptions && filterOptions[n].optionDisplayName.Some?
    requires i == IndexOf(filterOptions[n].options, optionName) && 0 <= i < |filterOptions[n].optionDisplayName.value|
    requires filterOptions[n].optionDisplayName.value[i] != ""
    ensures DisplayNameOf(filterOptions, n, optionName) == filterOptions[n].optionDisplayName.value[i]
  {
  }

  lemma KeyInjective(a: Weekday, b: Weekday)
    requires a.Key() == b.Key()
    ensures a == b
  {
  }
}
