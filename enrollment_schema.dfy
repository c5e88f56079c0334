/**
 * The Enrollment document: its enums, defaults and the unique
 * (student, course) index (backend/models/Enrollment.js).
 */
module EnrollmentSchema {
  import opened Common

  datatype Status = Enrolled | Dropped | Completed

  datatype Grade = A | B | C | D | F

  /** `grade` is `None` for the schema's `null`. */
  datatype Enrollment = Enrollment(
    id: Id, student: Id, course: Id, status: Status, grade: Option<Grade>, enrolledAt: Instant)

  function StatusName(s: Status): (r: string)
    ensures ParseStatus(r) == Some(s)
  {
    match s
    case Enrolled => "enrolled"
    case Dropped => "dropped"
    case Completed => "completed"
  }

  /** The `status` enum: exactly the three names are accepted. */
  function ParseStatus(name: string): (r: Option<Status>)
    ensures r.Some? <==> name in ["enrolled", "dropped", "completed"]
  {
    if name == "enrolled" then Some(Enrolled)
    else if name == "dropped" then Some(Dropped)
    else if name == "completed" then Some(Completed)
    else None
  }

  function GradeName(g: Grade): (r: string)
    ensures ParseGrade(Some(r)) == Some(Some(g))
  {
    match g
    case A => "A"
    case B => "B"
    case C => "C"
    case D => "D"
    case F => "F"
  }

  /**
   * The `grade` enum, for a JSON value that is a string (`Some`) or `null`
   * (`None`): `Some(None)` is an accepted `null`, `None` a rejected value.
   */
  function ParseGrade(value: Option<string>): (r: Option<Option<Grade>>)
    ensures r.Some? <==> value.None? || value.value in ["A", "B", "C", "D", "F"]
    ensures r == Some(None) <==> value.None?
  {
    match value
    case None => Some(None)
    case Some(name) =>
      if name == "A" then Some(Some(A))
      else if name == "B" then Some(Some(B))
      else if name == "C" then Some(Some(C))
      else if name == "D" then Some(Some(D))
      else if name == "F" then Some(Some(F))
      else None
  }

  /**
   * `Enrollment.create({student, course, status?})` at instant `now`:
   * `status` defaults to enrolled, `grade` to null, `enrolledAt` to now.
   */
  function NewEnrollment(id: Id, student: Id, course: Id, status: Option<Status>, now: Instant): (r: Enrollment)
    ensures r.student == student && r.course == course && r.id == id
    ensures r.status == status.GetOr(Enrolled)
    ensures r.grade.None? && r.enrolledAt == now
  {
    Enrollment(id, student, course, status.GetOr(Enrolled), None, now)
  }

  predicate SamePair(a: Enrollment, b: Enrollment) {
    a.student == b.student && a.course == b.course
  }

  /** The unique index on (student, course): whatever the statuses. */
  predicate UniquePairs(rows: seq<Enrollment>) {
    forall i, j :: 0 <= i < j < |rows| ==> !SamePair(rows[i], rows[j])
  }
}
