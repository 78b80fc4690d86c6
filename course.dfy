/**
  A course record in the catalogue format the pages work with: every
  field is a string, and the seven week-day fields hold the period keys
  (one character per period) at which the course meets that day.
*/
module Courses {
  import opened Config

  datatype Course = Course(
    change: string,
    description: string,
    multipleCompulsory: string,
    department: string,
    number: string,
    grade: string,
    classLabel: string,
    name: string,
    url: string,
    credit: string,
    yearSemester: string,
    compulsoryElective: string,
    restrict: string,
    select: string,
    selected: string,
    remaining: string,
    teacher: string,
    room: string,
    monday: string,
    tuesday: string,
    wednesday: string,
    thursday: string,
    friday: string,
    saturday: string,
    sunday: string,
    context: string,
    programs: string,
    emi: string)
  {
    /** `course[day]`: the periods at which the course meets on `d`. */
    function Periods(d: Weekday): string {
      match d
      case Monday => monday
      case Tuesday => tuesday
      case Wednesday => wednesday
      case Thursday => thursday
      case Friday => friday
      case Saturday => saturday
      case Sunday => sunday
    }

    /** `course[key]` for a field key. */
    function Get(f: Field): string {
      match f
      case Change => change
      case Description => description
      case MultipleCompulsory => multipleCompulsory
      case Department => department
      case Number => number
      case Grade => grade
      case Class => classLabel
      case Name => name
      case Url => url
      case Credit => credit
      case YearSemester => yearSemester
      case CompulsoryElective => compulsoryElective
      case Restrict => restrict
      case Select => select
      case Selected => selected
      case Remaining => remaining
      case Teacher => teacher
      case Room => room
      case Day(d) => Periods(d)
      case Context => context
      case Programs => programs
      case Emi => emi
    }

    /** The course meets at least once in the week. */
    predicate Meets() {
      exists d: Weekday :: Periods(d) != ""
    }
  }

  /** A clicked timetable cell: a week-day key and a period code. */
  datatype TimeSlot = TimeSlot(weekday: Weekday, timeSlot: string)

  /** The numbers of a list of courses, in order. */
  function Numbers(cs: seq<Course>): (r: seq<string>)
    ensures |r| == |cs|
    ensures forall i :: 0 <= i < |cs| ==> r[i] == cs[i].number
  {
    if cs == [] then [] else [cs[0].number] + Numbers(cs[1..])
  }
}
