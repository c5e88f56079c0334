/**
 * The read-only handlers of backend/routes/enrollments.js: the course
 * roster, the caller's courses and the roster's CSV export. Each is a
 * projection of the active (`enrolled`) rows, joined with the user or
 * course each row references.
 */
module EnrollmentQueries {
  import opened Common
  import opened Seqs
  import opened Text
  import opened CourseSchema
  import opened EnrollmentSchema
  import opened UserSchema
  import opened Ledger
  import opened Csv

  /** `populate('student', ...)`: the referenced user, if it still exists. */
  function Student(users: seq<User>, id: Id): (r: Option<User>)
    ensures r.Some? <==> FindById(users, id).Some?
    ensures r.Some? ==> r.value.id == id && r.value in users
  {
    match FindById(users, id)
    case None => None
    case Some(i) => Some(users[i])
  }

  /**
   * One roster record: the row's id and enrolment time, and the student's
   * selected fields (each absent when the student no longer exists or
   * lacks that field).
   */
  datatype RosterEntry = RosterEntry(
    id: Id, name: Option<string>, email: Option<string>, studentId: Option<string>,
    major: Option<string>, semester: Option<int>, enrolledAt: Instant)

  function RosterEntryOf(users: seq<User>, e: Enrollment): (r: RosterEntry)
    ensures r.id == e.id && r.enrolledAt == e.enrolledAt
    ensures Student(users, e.student).None? ==>
      r.name.None? && r.email.None? && r.studentId.None? && r.major.None? && r.semester.None?
    ensures Student(users, e.student).Some? ==>
      var u := Student(users, e.student).value;
      r.name == Some(u.name) && r.email == Some(u.email) && r.studentId == u.studentId
      && r.major == u.major && r.semester == u.semester
  {
    match Student(users, e.student)
    case None => RosterEntry(e.id, None, None, None, None, None, e.enrolledAt)
    case Some(u) => RosterEntry(e.id, Some(u.name), Some(u.email), u.studentId, u.major, u.semester, e.enrolledAt)
  }

  /**
   * GET /course/:courseId/students: one record per active row of the
   * course, in row order; a malformed id fails the query's cast (500).
   */
  function Roster(l: Ledger, users: seq<User>, cid: Id, validId: Id -> bool): (r: Reply<seq<RosterEntry>>)
    ensures r.Failure? <==> !validId(cid)
    ensures r.Failure? ==> r.code == 500
    ensures r.Success? ==> |r.body| == ActiveCount(l.rows, cid)
    ensures r.Success? ==> forall i :: 0 <= i < |r.body| ==>
      r.body[i] == RosterEntryOf(users, ActiveRows(l.rows, cid)[i])
  {
    if !validId(cid) then Failure(500)
    else Success(Map(ActiveRows(l.rows, cid), (e: Enrollment) => RosterEntryOf(users, e)))
  }

  /** Every roster record comes from an active row of the course. */
  lemma RosterRecordsAreActiveRows(l: Ledger, users: seq<User>, cid: Id, validId: Id -> bool, i: nat)
    requires validId(cid) && i < |Roster(l, users, cid, validId).body|
    ensures exists j :: 0 <= j < |l.rows| && l.rows[j].id == Roster(l, users, cid, validId).body[i].id
                        && IsActiveIn(l.rows[j], cid)
  {
    var active := ActiveRows(l.rows, cid);
    assert ActiveIn(cid)(active[i]);
    assert active[i] in l.rows;
    var j :| 0 <= j < |l.rows| && l.rows[j] == active[i];
    assert IsActiveIn(l.rows[j], cid);
  }

  /** Every active row of the course has a roster record. */
  lemma ActiveRowsAreInRoster(l: Ledger, users: seq<User>, cid: Id, validId: Id -> bool, j: nat)
    requires validId(cid) && j < |l.rows| && IsActiveIn(l.rows[j], cid)
    ensures exists i :: 0 <= i < |Roster(l, users, cid, validId).body|
                        && Roster(l, users, cid, validId).body[i].id == l.rows[j].id
  {
    var active := ActiveRows(l.rows, cid);
    assert ActiveIn(cid)(l.rows[j]);
    assert l.rows[j] in active;
    var i :| 0 <= i < |active| && active[i] == l.rows[j];
    assert Roster(l, users, cid, validId).body[i].id == active[i].id;
  }

  predicate IsActiveIn(e: Enrollment, cid: Id) { e.course == cid && e.status == Enrolled }

  /** While the ledger invariant holds, a course's roster is as long as its counter. */
  lemma RosterLengthIsCounter(l: Ledger, users: seq<User>, k: nat, validId: Id -> bool)
    requires CounterConsistent(l) && k < |l.courses| && validId(l.courses[k].id)
    ensures |Roster(l, users, l.courses[k].id, validId).body| == l.courses[k].enrolled
  {
  }

  /** The course fields `my-courses` populates. */
  datatype CourseSummary = CourseSummary(
    id: Id, courseCode: string, title: string, department: string,
    credits: int, capacity: int, enrolled: int, isActive: bool)

  function Summary(c: Course): CourseSummary {
    CourseSummary(c.id, c.courseCode, c.title, c.department, c.credits, c.capacity, c.enrolled, c.isActive)
  }

  /** One `my-courses` item: the row, and its course if it still exists. */
  datatype MyCourseItem = MyCourseItem(row: Enrollment, course: Option<CourseSummary>)

  function MineIn(student: Id): Enrollment -> bool {
    (e: Enrollment) => e.student == student && e.status == Enrolled
  }

  function ItemOf(courses: seq<Course>, e: Enrollment): (r: MyCourseItem)
    ensures r.row == e
    ensures r.course.Some? <==> FindCourse(courses, e.course).Some?
    ensures r.course.Some? ==> r.course.value == Summary(courses[FindCourse(courses, e.course).value])
  {
    match FindCourse(courses, e.course)
    case None => MyCourseItem(e, None)
    case Some(k) => MyCourseItem(e, Some(Summary(courses[k])))
  }

  function Rows(items: seq<MyCourseItem>): seq<Enrollment> {
    Map(items, (it: MyCourseItem) => it.row)
  }

  /** GET /my-courses: the caller's active rows in row order, each with its course. */
  function MyCourses(l: Ledger, student: Id): (r: seq<MyCourseItem>)
    ensures Rows(r) == Filter(l.rows, MineIn(student))
    ensures forall i :: 0 <= i < |r| ==> r[i].row.student == student && r[i].row.status == Enrolled
    ensures forall i :: 0 <= i < |r| ==> r[i] == ItemOf(l.courses, r[i].row)
  {
    var mine := Filter(l.rows, MineIn(student));
    var r := Map(mine, (e: Enrollment) => ItemOf(l.courses, e));
    assert Rows(r) == mine;
    forall i | 0 <= i < |r|
      ensures r[i].row.student == student && r[i].row.status == Enrolled
    {
      assert MineIn(student)(mine[i]);
    }
    r
  }

  /** A successful enroll adds exactly its new row at the end of the caller's courses. */
  lemma {:induction false} MyCoursesAfterEnroll(l: Ledger, student: Id, cid: Id, newId: Id, now: Instant, validId: Id -> bool)
    requires Enroll(l, student, cid, newId, now, validId).code == 201
    ensures Rows(MyCourses(Enroll(l, student, cid, newId, now, validId).after, student))
         == Rows(MyCourses(l, student)) + [NewEnrollment(newId, student, cid, Some(Enrolled), now)]
  {
    var row := NewEnrollment(newId, student, cid, Some(Enrolled), now);
    FilterAppend(l.rows, [row], MineIn(student));
    assert Filter([row], MineIn(student)) == [row];
  }

  /** After a successful drop the course is no longer among the caller's courses. */
  lemma DroppedCourseLeavesMyCourses(l: Ledger, student: Id, cid: Id, validId: Id -> bool)
    requires UniquePairs(l.rows)
    requires Drop(l, student, cid, validId).code == 200
    ensures forall i :: 0 <= i < |MyCourses(Drop(l, student, cid, validId).after, student)| ==>
      MyCourses(Drop(l, student, cid, validId).after, student)[i].row.course != cid
  {
    var after := Drop(l, student, cid, validId).after;
    var k := FindActive(l.rows, student, cid).value;
    var r := MyCourses(after, student);
    forall i | 0 <= i < |r|
      ensures r[i].row.course != cid
    {
      var row := r[i].row;
      assert Rows(r)[i] == row;
      assert row in after.rows;
      var j :| 0 <= j < |after.rows| && after.rows[j] == row;
      var j' := if j < k then j else j + 1;
      assert l.rows[j'] == row && j' != k;
    }
  }

  const CsvHeader: seq<string> := ["Name", "Email", "Student ID", "Major", "Semester", "Enrolled At"]

  /**
   * One CSV record: the student's fields with `''` for any that is missing
   * (or for a missing student), then the enrolment time rendered by `iso`
   * (`toISOString`).
   */
  function CsvFields(users: seq<User>, e: Enrollment, iso: Instant -> string): (r: seq<string>)
    ensures |r| == |CsvHeader| && r[5] == iso(e.enrolledAt)
    ensures Student(users, e.student).None? ==> r[..5] == ["", "", "", "", ""]
    ensures Student(users, e.student).Some? ==>
      var u := Student(users, e.student).value;
      r[0] == u.name && r[1] == u.email && r[2] == u.studentId.GetOr("") && r[3] == u.major.GetOr("")
      && r[4] == (if u.semester.Some? then DecimalString(u.semester.value) else "")
  {
    var p := RosterEntryOf(users, e);
    [p.name.GetOr(""), p.email.GetOr(""), p.studentId.GetOr(""), p.major.GetOr(""),
     if p.semester.Some? then DecimalString(p.semester.value) else "",
     iso(e.enrolledAt)]
  }

  /**
   * GET /course/:courseId/students/export: 404 when the course is absent
   * (500 when the id does not cast), otherwise the header record and one
   * record per active row. The text reads back as exactly those records.
   */
  function ExportCsv(l: Ledger, users: seq<User>, cid: Id, validId: Id -> bool, iso: Instant -> string): (r: Reply<string>)
    ensures !validId(cid) ==> r == Failure(500)
    ensures validId(cid) && FindCourse(l.courses, cid).None? ==> r == Failure(404)
    ensures validId(cid) && FindCourse(l.courses, cid).Some? ==>
      && r.Success?
      && var records := Map(ActiveRows(l.rows, cid), (e: Enrollment) => CsvFields(users, e, iso));
         && |records| == ActiveCount(l.rows, cid)
         && Parse(r.body) == Some([CsvHeader] + records)
  {
    if !validId(cid) then Failure(500)
    else if FindCourse(l.courses, cid).None? then Failure(404)
    else
      var records := Map(ActiveRows(l.rows, cid), (e: Enrollment) => CsvFields(users, e, iso));
      var all := [CsvHeader] + records;
      ParseDocument(all);
      Success(Document(all))
  }
}
