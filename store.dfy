/**
 * The database the route handlers share, and the handlers that change it:
 * each method performs its handler's reads and writes in the handler's
 * order and is proved to leave exactly the state, and return exactly the
 * status, of the handler's transition function.
 */
module Store {
  import opened Common
  import opened Seqs
  import opened CourseSchema
  import opened EnrollmentSchema
  import opened UserSchema
  import L = Ledger
  import C = Catalogue
  import A = Accounts

  /** The three collections, each in natural order. */
  class Database {
    var courses: seq<Course>
    var rows: seq<Enrollment>
    var users: seq<User>

    constructor()
      ensures courses == [] && rows == [] && users == []
    {
      courses := [];
      rows := [];
      users := [];
    }

    function Ledger(): L.Ledger
      reads this
    {
      L.Ledger(courses, rows)
    }

    /** POST /api/enrollments/enroll/:courseId */
    method Enroll(student: Id, cid: Id, newId: Id, now: Instant, validId: Id -> bool) returns (code: int)
      modifies this
      ensures code == L.Enroll(old(Ledger()), student, cid, newId, now, validId).code
      ensures Ledger() == L.Enroll(old(Ledger()), student, cid, newId, now, validId).after
      ensures users == old(users)
      ensures L.Invariant(old(Ledger())) ==> L.Invariant(Ledger())
    {
      ghost var before := Ledger();
      if L.Invariant(before) {
        L.EnrollPreservesInvariant(before, student, cid, newId, now, validId);
      }
      if !validId(cid) {
        return 500;
      }
      var found := L.FindCourse(courses, cid);
      if found.None? {
        return 404;
      }
      var k := found.value;
      var course := courses[k];
      if !course.isActive {
        return 400;
      }
      if course.enrolled >= course.capacity {
        return 400;
      }
      if L.FindActive(rows, student, cid).Some? {
        return 400;
      }
      if L.FindPair(rows, student, cid).Some? {
        // the unique (student, course) index rejects the create
        return 500;
      }
      rows := rows + [NewEnrollment(newId, student, cid, Some(Enrolled), now)];
      courses := courses[k := course.(enrolled := course.enrolled + 1)];
      return 201;
    }

    /** DELETE /api/enrollments/drop/:courseId */
    method Drop(student: Id, cid: Id, validId: Id -> bool) returns (code: int)
      modifies this
      ensures code == L.Drop(old(Ledger()), student, cid, validId).code
      ensures Ledger() == L.Drop(old(Ledger()), student, cid, validId).after
      ensures users == old(users)
      ensures L.Invariant(old(Ledger())) ==> L.Invariant(Ledger())
    {
      ghost var before := Ledger();
      if L.Invariant(before) {
        L.DropPreservesInvariant(before, student, cid, validId);
      }
      if !validId(cid) {
        return 500;
      }
      var active := L.FindActive(rows, student, cid);
      if active.None? {
        return 404;
      }
      rows := RemoveAt(rows, active.value);
      var found := L.FindCourse(courses, cid);
      if found.Some? {
        var course := courses[found.value];
        courses := courses[found.value := course.(enrolled := Max(0, course.enrolled - 1))];
      }
      return 200;
    }

    /** POST /api/courses */
    method CreateCourse(newId: Id, body: CourseBody) returns (code: int)
      modifies this
      ensures code == C.CreateCourse(old(courses), newId, body).code
      ensures courses == C.CreateCourse(old(courses), newId, body).courses
      ensures rows == old(rows) && users == old(users)
    {
      var created := CourseFromBody(newId, body);
      if created.None? {
        return 500;
      }
      var course := created.value;
      if C.FindCode(courses, course.courseCode).Some? || L.FindCourse(courses, newId).Some? {
        return 500;
      }
      courses := courses + [course];
      return 201;
    }

    /** PUT /api/courses/:id */
    method UpdateCourse(id: Id, body: CourseBody, validId: Id -> bool) returns (code: int)
      modifies this
      ensures code == C.UpdateCourse(old(courses), id, body, validId).code
      ensures courses == C.UpdateCourse(old(courses), id, body, validId).courses
      ensures rows == old(rows) && users == old(users)
    {
      if !validId(id) {
        return 400;
      }
      if !GivenFieldsValid(body) {
        return 500;
      }
      var found := L.FindCourse(courses, id);
      if found.None? {
        return 404;
      }
      var k := found.value;
      var updated := ApplyBody(courses[k], body);
      if exists j :: 0 <= j < |courses| && j != k && courses[j].courseCode == updated.courseCode {
        return 500;
      }
      courses := courses[k := updated];
      return 200;
    }

    /** DELETE /api/courses/:id: the course goes, its enrollment rows stay. */
    method DeleteCourse(id: Id, validId: Id -> bool) returns (code: int)
      modifies this
      ensures code == C.DeleteCourse(old(courses), id, validId).code
      ensures courses == C.DeleteCourse(old(courses), id, validId).courses
      ensures rows == old(rows) && users == old(users)
      ensures L.Invariant(old(Ledger())) ==> L.Invariant(Ledger())
    {
      ghost var before := Ledger();
      if L.Invariant(before) {
        C.DeleteKeepsLedgerInvariant(before, id, validId);
      }
      if !validId(id) {
        return 400;
      }
      var found := L.FindCourse(courses, id);
      if found.None? {
        return 404;
      }
      courses := RemoveAt(courses, found.value);
      return 200;
    }

    /** POST /api/auth/register */
    method Register(req: A.RegisterRequest, newId: Id, otp: string, now: Instant,
                    isEmail: string -> bool, mailSent: bool) returns (code: int)
      modifies this
      ensures code == A.Register(old(users), req, newId, otp, now, isEmail, mailSent).code
      ensures users == A.Register(old(users), req, newId, otp, now, isEmail, mailSent).users
      ensures courses == old(courses) && rows == old(rows)
    {
      if !A.RegisterRequestValid(req, isEmail) {
        return 400;
      }
      var email := A.NormalizeEmail(req.email);
      var role := ParseRole(req.role).value;
      if FindByEmail(users, email).Some? {
        return 400;
      }
      if role == Student {
        var studentId := A.TrimmedOr(req.studentId);
        if !(A.Truthy(studentId) && A.Truthy(A.TrimmedOr(req.major)) && req.semester.Some?) {
          return 400;
        }
        if FindByStudentId(users, studentId.value).Some? {
          return 400;
        }
      }
      code := Admit(A.NewUser(req, role, newId, otp, now), mailSent);
    }

    /** The create and the mail that end POST /api/auth/register. */
    method Admit(user: User, mailSent: bool) returns (code: int)
      modifies this
      ensures code == A.Admit(old(users), user, mailSent).code
      ensures users == A.Admit(old(users), user, mailSent).users
      ensures courses == old(courses) && rows == old(rows)
    {
      if !ValidUser(user) || FindById(users, user.id).Some? {
        // a validation error or a duplicate key, both answered with 400
        return 400;
      }
      users := users + [user];
      if user.role == Student && !mailSent {
        return 500;
      }
      return 201;
    }

    /** POST /api/auth/verify-otp */
    method VerifyOtp(email: string, otp: string, now: Instant, isEmail: string -> bool) returns (code: int)
      modifies this
      ensures code == A.VerifyOtp(old(users), email, otp, now, isEmail).code
      ensures users == A.VerifyOtp(old(users), email, otp, now, isEmail).users
      ensures courses == old(courses) && rows == old(rows)
    {
      if !A.VerifyRequestValid(email, otp, isEmail) {
        return 400;
      }
      var found := FindByEmail(users, A.NormalizeEmail(email));
      if found.None? {
        return 404;
      }
      var i := found.value;
      var user := users[i];
      if user.isEmailVerified {
        return 400;
      }
      if user.otp != Some(otp) {
        return 400;
      }
      if A.Expired(user, now) {
        return 400;
      }
      user := user.(isEmailVerified := true, otp := None, otpExpiry := None);
      if !ValidUser(user) {
        return 500;
      }
      users := users[i := user];
      return 200;
    }

    /** POST /api/auth/resend-otp */
    method ResendOtp(email: string, otp: string, now: Instant, mailSent: bool) returns (code: int)
      modifies this
      ensures code == A.ResendOtp(old(users), email, otp, now, mailSent).code
      ensures users == A.ResendOtp(old(users), email, otp, now, mailSent).users
      ensures courses == old(courses) && rows == old(rows)
    {
      var found := FindByEmail(users, A.NormalizeEmail(email));
      if found.None? {
        return 404;
      }
      var i := found.value;
      var user := users[i];
      if user.isEmailVerified {
        return 400;
      }
      user := user.(otp := Some(otp), otpExpiry := Some(now + A.OtpLifetime));
      if !ValidUser(user) {
        return 500;
      }
      users := users[i := user];
      if !mailSent {
        return 500;
      }
      return 200;
    }
  }
}
