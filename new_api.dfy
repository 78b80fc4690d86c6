/**
  The newer course API: its record shape, the field mapping to the older
  catalogue record every page works with, and the removal of repeated
  ids when a course list is downloaded.
*/
module NewApi {
  import opened Outcomes
  import opened Courses
  import opened Seqs
  import opened JsStrings
  import opened Numerals

  /** A course as the newer API delivers it; absent optional fields are `None`. */
  datatype NsysuCourse = NsysuCourse(
    id: string,
    url: string,
    change: Option<string>,
    changeDescription: Option<string>,
    multipleCompulsory: bool,
    department: string,
    grade: string,
    classLabel: Option<string>,
    name: string,
    credit: string,
    yearSemester: string,
    compulsory: bool,
    restrict: int,
    select: int,
    selected: int,
    remaining: int,
    teacher: string,
    room: string,
    classTime: seq<string>,
    description: string,
    tags: seq<string>,
    english: bool)

  /** The four class labels of the older record. */
  const ClassLabels: seq<string> := ["不分班", "全英班", "甲班", "乙班"]

  /** `name.split('\n')[0]`: the text before the first line feed. */
  function FirstLine(name: string): (r: string)
    ensures '\n' !in r
    ensures |r| <= |name| && r == name[..|r|]
    ensures |r| < |name| ==> name[|r|] == '\n'
  {
    if name == [] || name[0] == '\n' then [] else [name[0]] + FirstLine(name[1..])
  }

  /** `x || ''` on an optional string. */
  function OrEmpty(x: Option<string>): (r: string)
    ensures x.Some? ==> r == x.value
    ensures x.None? ==> r == ""
  {
    if x.Some? then x.value else ""
  }

  /**
    `mapNewApiToOldApiFormat`. The seven day fields are read from the
    first seven entries of `classTime`.
  */
  function MapNewApiToOldApiFormat(n: NsysuCourse): (c: Course)
    requires |n.classTime| >= 7
    ensures c.number == n.id
    ensures c.classLabel in ClassLabels
    ensures n.classLabel.Some? && n.classLabel.value in ClassLabels ==> c.classLabel == n.classLabel.value
    ensures c.compulsoryElective == (if n.compulsory then "必" else "選")
    ensures c.emi == (if n.english then "1" else "0")
    ensures c.multipleCompulsory == (if n.multipleCompulsory then "是" else "")
    ensures '\n' !in c.name && StartsWith(n.name, c.name)
  {
    var cls := OrEmpty(n.classLabel);
    Course(
      OrEmpty(n.change),
      OrEmpty(n.changeDescription),
      if n.multipleCompulsory then "是" else "",
      n.department,
      n.id,
      n.grade,
      if cls in ClassLabels then cls else "不分班",
      FirstLine(n.name),
      n.url,
      n.credit,
      n.yearSemester,
      if n.compulsory then "必" else "選",
      IntToString(n.restrict),
      IntToString(n.select),
      IntToString(n.selected),
      IntToString(n.remaining),
      n.teacher,
      n.room,
      n.classTime[0],
      n.classTime[1],
      n.classTime[2],
      n.classTime[3],
      n.classTime[4],
      n.classTime[5],
      n.classTime[6],
      n.description,
      Join(n.tags, ", "),
      if n.english then "1" else "0")
  }

  /** The four counts are rendered in decimal: reading them back gives the numbers. */
  lemma MappedCountsReadBack(n: NsysuCourse)
    requires |n.classTime| >= 7
    ensures var c := MapNewApiToOldApiFormat(n);
      ParseInt(c.restrict) == Some(n.restrict) && ParseInt(c.select) == Some(n.select) &&
      ParseInt(c.selected) == Some(n.selected) && ParseInt(c.remaining) == Some(n.remaining)
  {
    ParseIntOfIntToString(n.restrict);
    ParseIntOfIntToString(n.select);
    ParseIntOfIntToString(n.selected);
    ParseIntOfIntToString(n.remaining);
  }

  /** Monday to Sunday are the first seven entries of `classTime`, in order. */
  lemma MappedDaysAreClassTime(n: NsysuCourse)
    requires |n.classTime| >= 7
    ensures forall i :: 0 <= i < 7 ==> MapNewApiToOldApiFormat(n).Periods(Config.Weekdays[i]) == n.classTime[i]
  {
  }

  /** `Programs` joins the tags with a comma and a space. */
  lemma MappedProgramsJoinTags(n: NsysuCourse)
    requires |n.classTime| >= 7
    ensures MapNewApiToOldApiFormat(n).programs == Join(n.tags, ", ")
  {
  }

  /** A name keeps only its first line. */
  lemma {:induction false} FirstLineOfLines(first: string, rest: string)
    requires '\n' !in first
    ensures FirstLine(first + "\n" + rest) == first
  {
    if first != [] {
      assert (first + "\n" + rest)[1..] == first[1..] + "\n" + rest;
      FirstLineOfLines(first[1..], rest);
    }
  }

  /** The bilingual sample name maps to its Chinese part. */
  lemma SampleNameKeepsFirstLine()
    ensures FirstLine("教育心理學\nEDUCATIONAL PSYCHOLOGY") == "教育心理學"
  {
    assert "教育心理學\nEDUCATIONAL PSYCHOLOGY" == "教育心理學" + "\n" + "EDUCATIONAL PSYCHOLOGY";
    FirstLineOfLines("教育心理學", "EDUCATIONAL PSYCHOLOGY");
  }

  /** The ids of a course list, in order. */
  function Ids(courses: seq<NsysuCourse>): (r: seq<string>)
    ensures |r| == |courses|
    ensures forall i :: 0 <= i < |courses| ==> r[i] == courses[i].id
  {
    if courses == [] then [] else [courses[0].id] + Ids(courses[1..])
  }

  /** `courses.find(course => course.id === id)!`: the first course with that id. */
  function FirstWithId(courses: seq<NsysuCourse>, id: string): (c: NsysuCourse)
    requires id in Ids(courses)
    ensures c in courses && c.id == id
  {
    courses[IndexOf(Ids(courses), id)]
  }

  /**
    The id dedup of `getCourses`: one course per distinct id, in the order
    in which ids first appear, each the first course carrying it.
  */
  function UniqueById(courses: seq<NsysuCourse>): (r: seq<NsysuCourse>)
    ensures NoDups(Ids(r))
    ensures forall c :: c in courses ==> c.id in Ids(r)
    ensures forall c :: c in r ==> c in courses
    ensures forall i :: 0 <= i < |r| ==> r[i].id in Ids(courses) && r[i] == FirstWithId(courses, r[i].id)
    ensures FirstAppearanceOrder(Ids(r), Ids(courses))
  {
    UniqueByIdFacts(courses);
    FindEach(courses, Distinct(Ids(courses)))
  }

  /** The facts `UniqueById` promises, about its body. */
  lemma UniqueByIdFacts(courses: seq<NsysuCourse>)
    ensures var ids := Distinct(Ids(courses));
      && (forall id :: id in ids ==> id in Ids(courses))
      && var r := FindEach(courses, ids);
      && NoDups(Ids(r))
      && (forall c :: c in courses ==> c.id in Ids(r))
      && (forall c :: c in r ==> c in courses)
      && (forall i :: 0 <= i < |r| ==> r[i].id in Ids(courses) && r[i] == FirstWithId(courses, r[i].id))
      && FirstAppearanceOrder(Ids(r), Ids(courses))
  {
    var ids := Distinct(Ids(courses));
    var r := FindEach(courses, ids);
    IdsCovered(courses, ids);
    FoundWithin(courses, ids);
    FoundFirst(courses, ids);
  }

  /** Every course `FindEach` returns is one of the courses. */
  lemma FoundWithin(courses: seq<NsysuCourse>, ids: seq<string>)
    requires forall id :: id in ids ==> id in Ids(courses)
    ensures forall c :: c in FindEach(courses, ids) ==> c in courses
  {
    var r := FindEach(courses, ids);
    forall c | c in r ensures c in courses {
      var i :| 0 <= i < |r| && r[i] == c;
      assert r[i] == FirstWithId(courses, ids[i]);
    }
  }

  /** Each course `FindEach` returns is the first course carrying its own id. */
  lemma FoundFirst(courses: seq<NsysuCourse>, ids: seq<string>)
    requires forall id :: id in ids ==> id in Ids(courses)
    ensures var r := FindEach(courses, ids);
      forall i :: 0 <= i < |r| ==> r[i].id in Ids(courses) && r[i] == FirstWithId(courses, r[i].id)
  {
    var r := FindEach(courses, ids);
    forall i | 0 <= i < |r| ensures r[i].id in Ids(courses) && r[i] == FirstWithId(courses, r[i].id) {
      assert Ids(r)[i] == r[i].id == ids[i];
    }
  }

  /** A list holding every id of the courses holds the id of each course. */
  lemma IdsCovered(courses: seq<NsysuCourse>, ids: seq<string>)
    requires forall x :: x in Ids(courses) ==> x in ids
    ensures forall c :: c in courses ==> c.id in ids
  {
    forall c | c in courses ensures c.id in ids {
      var k :| 0 <= k < |courses| && courses[k] == c;
      assert Ids(courses)[k] == c.id;
    }
  }

  /** `ids.map(id => courses.find(...)!)` */
  function FindEach(courses: seq<NsysuCourse>, ids: seq<string>): (r: seq<NsysuCourse>)
    requires forall id :: id in ids ==> id in Ids(courses)
    ensures Ids(r) == ids
    ensures forall i :: 0 <= i < |r| ==> r[i] == FirstWithId(courses, ids[i])
  {
    if ids == [] then []
    else [FirstWithId(courses, ids[0])] + FindEach(courses, ids[1..])
  }

  /** A list whose ids are already distinct comes back unchanged. */
  lemma {:induction false} UniqueByIdKeepsDistinct(courses: seq<NsysuCourse>)
    requires NoDups(Ids(courses))
    ensures UniqueById(courses) == courses
  {
    var ids := Ids(courses);
    DistinctOfNoDups(ids);
    var r := UniqueById(courses);
    assert |r| == |courses|;
    forall i | 0 <= i < |courses| ensures r[i] == courses[i] {
      FirstWithIdAt(courses, i);
    }
  }

  lemma {:induction false} FirstWithIdAt(courses: seq<NsysuCourse>, i: nat)
    requires NoDups(Ids(courses)) && i < |courses|
    ensures courses[i].id in Ids(courses) && FirstWithId(courses, courses[i].id) == courses[i]
  {
    assert Ids(courses)[i] == courses[i].id;
    IndexOfNoDups(Ids(courses), i);
  }
}
