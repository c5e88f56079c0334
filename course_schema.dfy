/**
 * The Course document: its fields, the schema's validators and defaults,
 * and the `availableSeats` virtual (backend/models/Course.js).
 */
module CourseSchema {
  import opened Common
  import opened Text

  datatype Schedule = Schedule(days: seq<string>, time: string, room: string)

  /** One attached course-material file. */
  datatype CourseFile = CourseFile(
    name: string, url: string, size: Option<int>, storageId: string,
    uploadedBy: Option<Id>, uploadedAt: Instant)

  datatype Course = Course(
    id: Id,
    courseCode: string,
    title: string,
    description: string,
    credits: int,
    department: string,
    instructor: string,
    schedule: Schedule,
    capacity: int,
    enrolled: int,
    prerequisites: seq<string>,
    semester: string,
    year: int,
    isActive: bool,
    files: seq<CourseFile>)

  const SemesterValues: seq<string> := ["Even", "Odd"]
  const MinCredits := 1
  const MaxCredits := 4
  const MinCapacity := 1

  /** Mongoose's `required` on a String field rejects a missing value and ''. */
  predicate Present(s: string) { s != [] }

  predicate ValidFile(f: CourseFile) {
    Present(f.name) && Present(f.url) && Present(f.storageId)
  }

  /**
   * What the schema enforces on a stored course. Note what it does NOT
   * enforce: `enrolled` carries no `min` and no `max`.
   */
  predicate ValidCourse(c: Course) {
    && Present(c.courseCode) && IsUpperCase(c.courseCode)
    && Present(c.title) && Present(c.description)
    && MinCredits <= c.credits <= MaxCredits
    && Present(c.department) && Present(c.instructor)
    && Present(c.schedule.time) && Present(c.schedule.room)
    && c.capacity >= MinCapacity
    && c.semester in SemesterValues
    && (forall i :: 0 <= i < |c.files| ==> ValidFile(c.files[i]))
  }

  /** The `availableSeats` virtual. */
  function AvailableSeats(c: Course): (r: int)
    ensures r + c.enrolled == c.capacity
    ensures r < 0 <==> c.enrolled > c.capacity
  {
    c.capacity - c.enrolled
  }

  /** A course the schema accepts may report a negative number of free seats. */
  lemma SchemaAllowsNegativeSeats()
    ensures exists c :: ValidCourse(c) && AvailableSeats(c) < 0
  {
    var c := Course("c1", "CS101", "Intro", "Basics", 3, "Computer Science", "Ada",
                    Schedule([], "10:00", "R1"), 1, 2, [], "Even", 2025, true, []);
    assert ValidCourse(c) && AvailableSeats(c) < 0;
  }

  /** A JSON request body for a course: every field may be absent. */
  datatype ScheduleBody = ScheduleBody(days: Option<seq<string>>, time: Option<string>, room: Option<string>)

  datatype CourseBody = CourseBody(
    courseCode: Option<string>,
    title: Option<string>,
    description: Option<string>,
    credits: Option<int>,
    department: Option<string>,
    instructor: Option<string>,
    schedule: Option<ScheduleBody>,
    capacity: Option<int>,
    enrolled: Option<int>,
    prerequisites: Option<seq<string>>,
    semester: Option<string>,
    year: Option<int>,
    isActive: Option<bool>)

  predicate PresentIn(s: Option<string>) { s.Some? && Present(s.value) }

  /** A field that is given passes its own validator (how update validators judge a body). */
  predicate GivenFieldsValid(b: CourseBody) {
    && (b.courseCode.Some? ==> Present(b.courseCode.value))
    && (b.title.Some? ==> Present(b.title.value))
    && (b.description.Some? ==> Present(b.description.value))
    && (b.credits.Some? ==> MinCredits <= b.credits.value <= MaxCredits)
    && (b.department.Some? ==> Present(b.department.value))
    && (b.instructor.Some? ==> Present(b.instructor.value))
    && (b.schedule.Some? ==> PresentIn(b.schedule.value.time) && PresentIn(b.schedule.value.room))
    && (b.capacity.Some? ==> b.capacity.value >= MinCapacity)
    && (b.semester.Some? ==> b.semester.value in SemesterValues)
  }

  /** Document validation on create: every required field is there and valid. */
  predicate CreatableBody(b: CourseBody) {
    && GivenFieldsValid(b)
    && b.courseCode.Some? && b.title.Some? && b.description.Some? && b.credits.Some?
    && b.department.Some? && b.instructor.Some? && b.schedule.Some? && b.capacity.Some?
    && b.semester.Some? && b.year.Some?
  }

  /**
   * The document `Course.create(body)` would store under `id`: the code is
   * upper-cased by its setter, and `enrolled`, `isActive`, `schedule.days`
   * and `prerequisites` take their defaults when absent. `None` is a
   * validation error.
   */
  function CourseFromBody(id: Id, b: CourseBody): (r: Option<Course>)
    ensures r.Some? <==> CreatableBody(b)
    ensures r.Some? ==> ValidCourse(r.value) && r.value.id == id
    ensures r.Some? ==> r.value.enrolled == b.enrolled.GetOr(0)
    ensures r.Some? ==> r.value.isActive == b.isActive.GetOr(true)
    ensures r.Some? ==> r.value.schedule.days == b.schedule.value.days.GetOr([])
    ensures r.Some? ==> r.value.courseCode == ToUpper(b.courseCode.value)
  {
    if !CreatableBody(b) then None
    else
      var sb := b.schedule.value;
      Some(Course(
        id, ToUpper(b.courseCode.value), b.title.value, b.description.value,
        b.credits.value, b.department.value, b.instructor.value,
        Schedule(sb.days.GetOr([]), sb.time.value, sb.room.value),
        b.capacity.value, b.enrolled.GetOr(0), b.prerequisites.GetOr([]),
        b.semester.value, b.year.value, b.isActive.GetOr(true), []))
  }

  /**
   * `findByIdAndUpdate(id, body)`: every given field overwrites the stored
   * one (the code again through its upper-casing setter); nothing else,
   * in particular `enrolled` is not reconciled with a new `capacity`.
   */
  function ApplyBody(c: Course, b: CourseBody): (r: Course)
    requires GivenFieldsValid(b)
    ensures ValidCourse(c) ==> ValidCourse(r)
    ensures r.id == c.id && r.files == c.files
    ensures r.enrolled == b.enrolled.GetOr(c.enrolled)
    ensures r.capacity == b.capacity.GetOr(c.capacity)
  {
    c.(courseCode := if b.courseCode.Some? then ToUpper(b.courseCode.value) else c.courseCode,
       title := b.title.GetOr(c.title),
       description := b.description.GetOr(c.description),
       credits := b.credits.GetOr(c.credits),
       department := b.department.GetOr(c.department),
       instructor := b.instructor.GetOr(c.instructor),
       schedule := if b.schedule.Some? then
                     Schedule(b.schedule.value.days.GetOr([]), b.schedule.value.time.value,
                              b.schedule.value.room.value)
                   else c.schedule,
       capacity := b.capacity.GetOr(c.capacity),
       enrolled := b.enrolled.GetOr(c.enrolled),
       prerequisites := b.prerequisites.GetOr(c.prerequisites),
       semester := b.semester.GetOr(c.semester),
       year := b.year.GetOr(c.year),
       isActive := b.isActive.GetOr(c.isActive))
  }
}
