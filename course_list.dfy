/**
 * The course list page (frontend/src/components/Courses/CourseList.jsx):
 * its chain of client-side filters, the enroll handler's update of the
 * page state, and the enroll button's condition.
 */
module CourseList {
  import opened Common
  import opened Seqs
  import opened Text
  import opened CourseSchema
  import opened UserSchema
  import L = Ledger

  const AllDepartments: string := "All Departments"
  const AllSemesters: string := "All Semesters"

  /** The page's filter controls, and the role of the signed-in user (if any). */
  datatype Filters = Filters(
    role: Option<Role>, showOnlyMySemester: bool, searchTerm: string,
    department: string, semester: string)

  predicate SearchHit(c: Course, term: string) {
    ContainsIgnoringCase(c.title, term) || ContainsIgnoringCase(c.courseCode, term)
    || ContainsIgnoringCase(c.description, term)
  }

  /** The four passes, each skipped when its control is off. */
  predicate ActivePass(c: Course, f: Filters) {
    f.role == Some(Student) && f.showOnlyMySemester ==> c.isActive
  }

  predicate SearchPass(c: Course, f: Filters) { f.searchTerm != [] ==> SearchHit(c, f.searchTerm) }

  predicate DepartmentPass(c: Course, f: Filters) { f.department != AllDepartments ==> c.department == f.department }

  predicate SemesterPass(c: Course, f: Filters) { f.semester != AllSemesters ==> c.semester == f.semester }

  /** A course is shown iff it passes every enabled filter. */
  predicate Shown(c: Course, f: Filters) {
    ActivePass(c, f) && SearchPass(c, f) && DepartmentPass(c, f) && SemesterPass(c, f)
  }

  /**
   * `filterCourses`: up to four successive `filter` passes over a copy of
   * the list. The result is the single pass with the conjunction, so an
   * order-preserving sub-list of the input.
   */
  function FilterCourses(courses: seq<Course>, f: Filters): (r: seq<Course>)
    ensures r == Filter(courses, (c: Course) => Shown(c, f))
    ensures IsSubsequence(r, courses)
  {
    var all := (c: Course) => true;
    var p1 := (c: Course) => c.isActive;
    var p2 := (c: Course) => SearchHit(c, f.searchTerm);
    var p3 := (c: Course) => c.department == f.department;
    var p4 := (c: Course) => c.semester == f.semester;
    var q1 := (c: Course) => ActivePass(c, f);
    var q2 := (c: Course) => ActivePass(c, f) && SearchPass(c, f);
    var q3 := (c: Course) => ActivePass(c, f) && SearchPass(c, f) && DepartmentPass(c, f);
    var q4 := (c: Course) => Shown(c, f);
    var filtered0 := courses;
    FilterAll(courses, all);
    var filtered1 := if f.role == Some(Student) && f.showOnlyMySemester then Filter(filtered0, p1) else filtered0;
    FilterStage(courses, all, f.role == Some(Student) && f.showOnlyMySemester, p1, q1);
    var filtered2 := if f.searchTerm != [] then Filter(filtered1, p2) else filtered1;
    FilterStage(courses, q1, f.searchTerm != [], p2, q2);
    var filtered3 := if f.department != AllDepartments then Filter(filtered2, p3) else filtered2;
    FilterStage(courses, q2, f.department != AllDepartments, p3, q3);
    var filtered4 := if f.semester != AllSemesters then Filter(filtered3, p4) else filtered3;
    FilterStage(courses, q3, f.semester != AllSemesters, p4, q4);
    filtered4
  }

  /** For a student with "My Semester Only" on, only active courses remain. */
  lemma StudentSeesOnlyActive(courses: seq<Course>, f: Filters, i: nat)
    requires f.role == Some(Student) && f.showOnlyMySemester
    requires i < |FilterCourses(courses, f)|
    ensures FilterCourses(courses, f)[i].isActive
  {
    var r := FilterCourses(courses, f);
    assert Shown(r[i], f);
  }

  /**
   * The optimistic seat bump after a successful enroll: the course with
   * that id shows one more enrolled student, capped at its capacity;
   * every other course is left as it is.
   */
  function BumpSeat(courses: seq<Course>, id: Id): (r: seq<Course>)
    ensures |r| == |courses|
    ensures forall i :: 0 <= i < |r| && courses[i].id != id ==> r[i] == courses[i]
    ensures forall i :: 0 <= i < |r| && courses[i].id == id ==>
      r[i] == courses[i].(enrolled := Min(courses[i].enrolled + 1, courses[i].capacity))
    ensures forall i :: 0 <= i < |r| && courses[i].id == id ==> r[i].enrolled <= r[i].capacity
  {
    Map(courses, (c: Course) => if c.id == id then c.(enrolled := Min(c.enrolled + 1, c.capacity)) else c)
  }

  /**
   * When the page holds the server's collection, the bump shows exactly
   * the counter the server stored on a successful enroll.
   */
  lemma {:induction false} BumpAgreesWithServer(l: L.Ledger, student: Id, cid: Id, newId: Id, now: Instant, validId: Id -> bool)
    requires L.UniqueCourseIds(l.courses)
    requires L.Enroll(l, student, cid, newId, now, validId).code == 201
    ensures BumpSeat(l.courses, cid) == L.Enroll(l, student, cid, newId, now, validId).after.courses
  {
    var k := L.FindCourse(l.courses, cid).value;
    var after := L.Enroll(l, student, cid, newId, now, validId).after.courses;
    var r := BumpSeat(l.courses, cid);
    forall i | 0 <= i < |r|
      ensures r[i] == after[i]
    {
      if i != k {
        assert l.courses[i].id != cid;
      }
    }
  }

  /** The server's verdict on an enroll request, as the page sees it. */
  datatype EnrollOutcome = Succeeded | Rejected(serverMessage: Option<string>)

  /** The enroll button: disabled when the course is full or a request for it is in flight. */
  predicate EnrollDisabled(c: Course, enrolling: map<Id, bool>) {
    c.enrolled >= c.capacity || (c.id in enrolling && enrolling[c.id])
  }

  /**
   * `error.response?.data?.message || 'Enrollment failed'`: the server's
   * message unless it is missing or empty (both falsy), then the fallback.
   */
  function FailureText(serverMessage: Option<string>): (r: string)
    ensures r != []
    ensures serverMessage.Some? && serverMessage.value != [] ==> r == serverMessage.value
    ensures serverMessage.None? || serverMessage.value == [] ==> r == "Enrollment failed"
  {
    if serverMessage.Some? && serverMessage.value != [] then serverMessage.value else "Enrollment failed"
  }

  /** The page's state that `handleEnroll` updates. */
  class Page {
    var courses: seq<Course>
    var enrolledIds: set<Id>
    var enrolling: map<Id, bool>
    var message: string

    constructor(courses: seq<Course>, enrolledIds: set<Id>)
      ensures this.courses == courses && this.enrolledIds == enrolledIds
      ensures enrolling == map[] && message == ""
    {
      this.courses := courses;
      this.enrolledIds := enrolledIds;
      enrolling := map[];
      message := "";
    }

    /**
     * `handleEnroll(courseId)` once the request has settled with `outcome`:
     * on success the id joins the enrolled set and its seat count is
     * bumped; on failure neither changes and the server's message (or a
     * fallback) is shown. Either way the request is no longer in flight.
     */
    method HandleEnroll(courseId: Id, outcome: EnrollOutcome)
      modifies this
      ensures enrolling == old(enrolling)[courseId := false]
      ensures outcome.Succeeded? ==>
        && enrolledIds == old(enrolledIds) + {courseId}
        && courses == BumpSeat(old(courses), courseId)
        && message == "Successfully enrolled in course!"
      ensures outcome.Rejected? ==>
        && enrolledIds == old(enrolledIds)
        && courses == old(courses)
        && message == FailureText(outcome.serverMessage)
        && message != []
        && (outcome.serverMessage.None? || outcome.serverMessage.value == [] ==> message == "Enrollment failed")
      ensures forall i :: 0 <= i < |courses| && courses[i].id == courseId ==>
        (EnrollDisabled(courses[i], enrolling) <==> courses[i].enrolled >= courses[i].capacity)
    {
      enrolling := enrolling[courseId := true];
      match outcome {
        case Succeeded =>
          message := "Successfully enrolled in course!";
          enrolledIds := enrolledIds + {courseId};
          courses := BumpSeat(courses, courseId);
        case Rejected(serverMessage) =>
          message := FailureText(serverMessage);
      }
      enrolling := enrolling[courseId := false];
    }
  }
}
