/**
 * The User document: roles, the role-conditional required fields, ranges
 * and the OTP-while-unverified rule (backend/models/User.js).
 */
module UserSchema {
  import opened Common
  import opened Seqs
  import opened Text

  datatype Role = Student | Admin

  /**
   * `password` is the stored credential; the bcrypt hash applied on save is
   * not modelled, so it is opaque here.
   */
  datatype User = User(
    id: Id,
    name: string,
    email: string,
    password: string,
    role: Role,
    studentId: Option<string>,
    major: Option<string>,
    semester: Option<int>,
    gpa: real,
    otp: Option<string>,
    otpExpiry: Option<Instant>,
    isEmailVerified: bool,
    isActive: bool)

  const MinSemester := 1
  const MaxSemester := 8

  function RoleName(r: Role): (s: string)
    ensures ParseRole(Some(s)) == Some(r)
  {
    match r
    case Student => "student"
    case Admin => "admin"
  }

  /** The `role` enum with its default: an absent role is a student. */
  function ParseRole(s: Option<string>): (r: Option<Role>)
    ensures s.None? ==> r == Some(Student)
    ensures s.Some? ==> (r.Some? <==> s.value in ["student", "admin"])
  {
    match s
    case None => Some(Student)
    case Some(name) =>
      if name == "student" then Some(Student)
      else if name == "admin" then Some(Admin)
      else None
  }

  predicate PresentIn(s: Option<string>) { s.Some? && s.value != [] }

  /** `studentId`, `major` and `semester` are required exactly for students. */
  predicate StudentFieldsRequired(u: User) { u.role == Student }

  /** `otp` and `otpExpiry` are required exactly for students not yet verified. */
  predicate OtpRequired(u: User) { u.role == Student && !u.isEmailVerified }

  /** What the schema enforces on a stored user. */
  predicate ValidUser(u: User) {
    && u.name != [] && u.email != [] && IsLowerCase(u.email) && u.password != []
    && (StudentFieldsRequired(u) ==> PresentIn(u.studentId) && PresentIn(u.major) && u.semester.Some?)
    && (u.semester.Some? ==> MinSemester <= u.semester.value <= MaxSemester)
    && 0.0 <= u.gpa <= 10.0
    && (OtpRequired(u) ==> PresentIn(u.otp) && u.otpExpiry.Some?)
  }

  /** Unique `_id`, unique `email`, and unique `studentId` among users having one (a sparse index). */
  predicate UniqueUsers(users: seq<User>) {
    forall i, j :: 0 <= i < j < |users| ==>
      && users[i].id != users[j].id
      && users[i].email != users[j].email
      && (users[i].studentId.Some? ==> users[i].studentId != users[j].studentId)
  }

  /** The user collection as the schema keeps it. */
  predicate ValidUsers(users: seq<User>) {
    UniqueUsers(users) && forall i :: 0 <= i < |users| ==> ValidUser(users[i])
  }

  /** `User.findOne({ email })` */
  function FindByEmail(users: seq<User>, email: string): (r: Option<nat>)
    ensures r.None? <==> forall i :: 0 <= i < |users| ==> users[i].email != email
    ensures r.Some? ==> r.value < |users| && users[r.value].email == email
    ensures r.Some? ==> forall i :: 0 <= i < r.value ==> users[i].email != email
  {
    FirstIndex(users, (u: User) => u.email == email)
  }

  /** `User.findOne({ studentId })` */
  function FindByStudentId(users: seq<User>, studentId: string): (r: Option<nat>)
    ensures r.None? <==> forall i :: 0 <= i < |users| ==> users[i].studentId != Some(studentId)
    ensures r.Some? ==> r.value < |users| && users[r.value].studentId == Some(studentId)
    ensures r.Some? ==> forall i :: 0 <= i < r.value ==> users[i].studentId != Some(studentId)
  {
    FirstIndex(users, (u: User) => u.studentId == Some(studentId))
  }

  /** `User.findById(id)` */
  function FindById(users: seq<User>, id: Id): (r: Option<nat>)
    ensures r.None? <==> forall i :: 0 <= i < |users| ==> users[i].id != id
    ensures r.Some? ==> r.value < |users| && users[r.value].id == id
    ensures r.Some? ==> forall i :: 0 <= i < r.value ==> users[i].id != id
    ensures r.Some? && UniqueUsers(users) ==> forall i :: 0 <= i < |users| && i != r.value ==> users[i].id != id
  {
    FirstIndex(users, (u: User) => u.id == id)
  }
}
