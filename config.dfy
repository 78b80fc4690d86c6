/**
  The application's fixed configuration: week days, time slots, the
  eleven advanced-filter rows with their default options, the mapping
  from a filter label to the course field it reads, and the default
  list of course-detective categories.
*/
module Config {
  import opened Outcomes

  /** The two generations of the application: the older JSX one and the newer TSX one. */
  datatype Generation = Jsx | Tsx

  datatype Weekday = Monday | Tuesday | Wednesday | Thursday | Friday | Saturday | Sunday
  {
    /** The key used in course records and filter options. */
    function Key(): (k: string)
      ensures |k| >= 6
    {
      match this
      case Monday => "Monday"
      case Tuesday => "Tuesday"
      case Wednesday => "Wednesday"
      case Thursday => "Thursday"
      case Friday => "Friday"
      case Saturday => "Saturday"
      case Sunday => "Sunday"
    }

    /** The one-character name shown in the timetable header. */
    function DisplayName(): (n: string)
      ensures |n| == 1
    {
      match this
      case Monday => "一"
      case Tuesday => "二"
      case Wednesday => "三"
      case Thursday => "四"
      case Friday => "五"
      case Saturday => "六"
      case Sunday => "日"
    }
  }

  /** `courseDayName`: the week days in timetable order. */
  const Weekdays: seq<Weekday> :=
    [Monday, Tuesday, Wednesday, Thursday, Friday, Saturday, Sunday]

  /** The day whose key is `k`, if any. */
  function WeekdayOfKey(k: string): (r: Option<Weekday>)
    ensures r.Some? ==> r.value.Key() == k
    ensures r.None? ==> forall d: Weekday :: d.Key() != k
  {
    if k == "Monday" then Some(Monday)
    else if k == "Tuesday" then Some(Tuesday)
    else if k == "Wednesday" then Some(Wednesday)
    else if k == "Thursday" then Some(Thursday)
    else if k == "Friday" then Some(Friday)
    else if k == "Saturday" then Some(Saturday)
    else if k == "Sunday" then Some(Sunday)
    else None
  }

  lemma WeekdaysComplete()
    ensures |Weekdays| == 7
    ensures forall d: Weekday :: d in Weekdays
    ensures forall i, j :: 0 <= i < j < 7 ==> Weekdays[i] != Weekdays[j]
  {
    forall d: Weekday
      ensures d in Weekdays
    {
      match d
      case Monday => assert Weekdays[0] == d;
      case Tuesday => assert Weekdays[1] == d;
      case Wednesday => assert Weekdays[2] == d;
      case Thursday => assert Weekdays[3] == d;
      case Friday => assert Weekdays[4] == d;
      case Saturday => assert Weekdays[5] == d;
      case Sunday => assert Weekdays[6] == d;
    }
  }

  /** `timeSlot`: the keys of the fifteen periods of a day, in timetable order. */
  const TimeSlots: seq<char> :=
    ['A', '1', '2', '3', '4', 'B', '5', '6', '7', '8', '9', 'C', 'D', 'E', 'F']

  /** The fifteen period keys are distinct. */
  lemma TimeSlotsDistinct()
    ensures |TimeSlots| == 15
    ensures forall i, j :: 0 <= i < j < |TimeSlots| ==> TimeSlots[i] != TimeSlots[j]
  {
  }

  /** The eleven advanced-filter rows, by their labels. */
  datatype FilterName =
    | ByName | ByTeacher | ByProgram | ByPeriod | ByWeekday
    | ByGrade | ByClass | ByDepartment | ByCompulsory | ByCredit | ByEmi
  {
    function Label(): (l: string)
      ensures |l| == 2
    {
      match this
      case ByName => "名稱"
      case ByTeacher => "教師"
      case ByProgram => "學程"
      case ByPeriod => "節次"
      case ByWeekday => "星期"
      case ByGrade => "年級"
      case ByClass => "班別"
      case ByDepartment => "系所"
      case ByCompulsory => "必修"
      case ByCredit => "學分"
      case ByEmi => "英課"
    }

    /** 星期 and 節次 filter on the timetable rather than on a course field. */
    predicate IsTimeFilter() {
      this == ByPeriod || this == ByWeekday
    }
  }

  /** The filter rows in the order of `defaultFilterOptions`. */
  const FilterNames: seq<FilterName> :=
    [ByName, ByTeacher, ByProgram, ByPeriod, ByWeekday, ByGrade,
     ByClass, ByDepartment, ByCompulsory, ByCredit, ByEmi]

  lemma FilterNamesComplete()
    ensures forall n: FilterName :: n in FilterNames
    ensures forall i, j :: 0 <= i < j < |FilterNames| ==>
      FilterNames[i].Label() != FilterNames[j].Label()
  {
    forall n: FilterName
      ensures n in FilterNames
    {
      match n
      case ByName => assert FilterNames[0] == n;
      case ByTeacher => assert FilterNames[1] == n;
      case ByProgram => assert FilterNames[2] == n;
      case ByPeriod => assert FilterNames[3] == n;
      case ByWeekday => assert FilterNames[4] == n;
      case ByGrade => assert FilterNames[5] == n;
      case ByClass => assert FilterNames[6] == n;
      case ByDepartment => assert FilterNames[7] == n;
      case ByCompulsory => assert FilterNames[8] == n;
      case ByCredit => assert FilterNames[9] == n;
      case ByEmi => assert FilterNames[10] == n;
    }
  }

  /** The fields of a course record a filter or a form can read. */
  datatype Field =
    | Change | Description | MultipleCompulsory | Department | Number | Grade
    | Class | Name | Url | Credit | YearSemester | CompulsoryElective
    | Restrict | Select | Selected | Remaining | Teacher | Room
    | Day(day: Weekday) | Context | Programs | Emi

  /** `courseDataNameMap`: the field a text or option filter reads; none for the time filters. */
  function CourseDataField(n: FilterName): (r: Option<Field>)
    ensures r.None? <==> n.IsTimeFilter()
    ensures r.Some? ==> !r.value.Day?
  {
    match n
    case ByName => Some(Name)
    case ByTeacher => Some(Teacher)
    case ByProgram => Some(Programs)
    case ByGrade => Some(Grade)
    case ByClass => Some(Class)
    case ByDepartment => Some(Department)
    case ByCompulsory => Some(CompulsoryElective)
    case ByCredit => Some(Credit)
    case ByEmi => Some(Emi)
    case ByPeriod => None
    case ByWeekday => None
  }

  /** Distinct filters read distinct fields. */
  lemma CourseDataFieldInjective(m: FilterName, n: FilterName)
    requires CourseDataField(m).Some? && CourseDataField(m) == CourseDataField(n)
    ensures m == n
  {
  }

  /** The options a filter row offers, their display names, and whether it shows a drop-down. */
  datatype FilterOptionSpec = FilterOptionSpec(
    options: seq<string>,
    optionDisplayName: Option<seq<string>>,
    dropdown: bool)

  /** `defaultFilterOptions` */
  function DefaultFilterOptions(n: FilterName): (spec: FilterOptionSpec)
    ensures spec.optionDisplayName.Some? ==>
      |spec.optionDisplayName.value| == |spec.options|
    ensures spec.dropdown <==> !(n in {ByName, ByTeacher, ByProgram})
  {
    match n
    case ByName => FilterOptionSpec([], None, false)
    case ByTeacher => FilterOptionSpec([], None, false)
    case ByProgram => FilterOptionSpec([], None, false)
    case ByPeriod => FilterOptionSpec(
      ["A", "1", "2", "3", "B", "4", "5", "6", "7", "8", "9", "C", "D", "E", "F"],
      None, true)
    case ByWeekday => FilterOptionSpec(
      ["Monday", "Tuesday", "Wednesday", "Thursday", "Friday", "Saturday", "Sunday"],
      Some(["一", "二", "三", "四", "五", "六", "日"]), true)
    case ByGrade => FilterOptionSpec(
      ["0", "1", "2", "3", "4"],
      Some(["不分", "大一", "大二", "大三", "大四"]), true)
    case ByClass => FilterOptionSpec(["甲班", "乙班", "全英班", "不分班"], None, true)
    case ByDepartment => FilterOptionSpec([], None, true)
    case ByCompulsory => FilterOptionSpec(["必", "選"], Some(["必修", "選修"]), true)
    case ByCredit => FilterOptionSpec([], None, true)
    case ByEmi => FilterOptionSpec(["1", "0"], Some(["是", "否"]), true)
  }

  /** The 星期 options and their display names are the week-day keys and names. */
  lemma DefaultWeekdayOptionsMatchTimetable()
    ensures DefaultFilterOptions(ByWeekday).optionDisplayName.Some?
    ensures |DefaultFilterOptions(ByWeekday).options| == 7 && |DefaultFilterOptions(ByWeekday).optionDisplayName.value| == 7
    ensures forall i :: 0 <= i < 7 ==>
      DefaultFilterOptions(ByWeekday).options[i] == Weekdays[i].Key() &&
      DefaultFilterOptions(ByWeekday).optionDisplayName.value[i] == Weekdays[i].DisplayName()
  {
  }

  /**
    The 節次 options offer the same fifteen period keys as the timetable,
    but list 'B' before '4' where the timetable has '4' before 'B'.
  */
  lemma PeriodOptionsReorderTimeSlots()
    ensures |DefaultFilterOptions(ByPeriod).options| == |TimeSlots|
    ensures forall k :: 0 <= k < |TimeSlots| ==>
      DefaultFilterOptions(ByPeriod).options[k] == [TimeSlots[Swap45(k)]]
    ensures DefaultFilterOptions(ByPeriod).options[4] == "B" && TimeSlots[4] == '4'
  {
  }

  /** Exchanges positions 4 and 5, the places of '4' and 'B'. */
  function Swap45(k: nat): (j: nat)
    ensures (j == 4 || j == 5) <==> (k == 4 || k == 5)
    ensures j != k ==> j + k == 9
  {
    if k == 4 then 5 else if k == 5 then 4 else k
  }

  /** One course-detective category: an id, its caption and whether it is switched on. */
  datatype DetectiveElement = DetectiveElement(id: string, content: string, enabled: bool)

  /** `courseDetectiveElements`: the default category order. */
  const CourseDetectiveElements: seq<DetectiveElement> := [
    DetectiveElement("liberal-arts", "博雅課程", true),
    DetectiveElement("sports-fitness", "運動與健康(大一必修)", true),
    DetectiveElement("sports-other", "運動與健康(其他)", true),
    DetectiveElement("cross-department", "跨院選修", true),
    DetectiveElement("chinese-critical-thinking", "中文思辨與表達", true),
    DetectiveElement("random-courses", "隨機大學部課程", false),
    DetectiveElement("random-graduate-courses", "隨機研究所課程", false),
    DetectiveElement("english-beginner", "英文初級", false),
    DetectiveElement("english-intermediate", "英文中級", false),
    DetectiveElement("english-advanced-mid", "英文中高級", false),
    DetectiveElement("english-advanced", "英文高級", false)
  ]

  /** Eleven categories with distinct ids; the first five start switched on, the other six off. */
  lemma DetectiveElementsDefaults()
    ensures |CourseDetectiveElements| == 11
    ensures forall i, j :: 0 <= i < j < 11 ==> CourseDetectiveElements[i].id != CourseDetectiveElements[j].id
    ensures forall i :: 0 <= i < 11 ==> (CourseDetectiveElements[i].enabled <==> i < 5)
  {
  }

  /** `howToUseExportCode` has seven steps. */
  const HowToUseStepCount: nat := 7
}
