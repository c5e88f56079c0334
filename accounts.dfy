/**
 * The account-verification state machine of backend/routes/auth.js over
 * the user collection: register, verify-otp, resend-otp and the login gate.
 * The clock is the `now` parameter, a generated OTP is the opaque `otp`
 * parameter, whether the OTP mail went out is `mailSent`, and what the
 * request validators and bcrypt decide are the `isEmail` and
 * `passwordMatches` parameters.
 */
module Accounts {
  import opened Common
  import opened Seqs
  import opened Text
  import opened UserSchema

  /** An OTP is valid for ten minutes after it is issued. */
  const OtpLifetime: int := 10 * 60 * 1000

  /** `normalizeEmail()`: the address lower-cased. */
  function NormalizeEmail(email: string): (r: string)
    ensures IsLowerCase(r) && |r| == |email|
  {
    ToLower(email)
  }

  /** A handler's HTTP status and the user collection it leaves behind. */
  datatype AuthStep = AuthStep(code: int, users: seq<User>)

  datatype RegisterRequest = RegisterRequest(
    name: string, email: string, password: string, role: Option<string>,
    studentId: Option<string>, major: Option<string>, semester: Option<int>)

  /** The validator chain of POST /register; a failure is a 400. */
  predicate RegisterRequestValid(req: RegisterRequest, isEmail: string -> bool) {
    && Trim(req.name) != []
    && isEmail(req.email)
    && |req.password| >= 6
    && (req.role.Some? ==> req.role.value in ["student", "admin"])
    && (req.semester.Some? ==> MinSemester <= req.semester.value <= MaxSemester)
  }

  function TrimmedOr(s: Option<string>): Option<string> {
    match s
    case None => None
    case Some(v) => Some(Trim(v))
  }

  /** JavaScript truthiness of an optional string: present and not `''`. */
  predicate Truthy(s: Option<string>) { s.Some? && s.value != [] }

  /**
   * The document `User.create(payload)` would store for a validated request:
   * an admin verified and without OTP or student fields, a student
   * unverified with `otp` expiring `OtpLifetime` after `now`.
   */
  function NewUser(req: RegisterRequest, role: Role, newId: Id, otp: string, now: Instant): (u: User)
    ensures u.id == newId && u.role == role && u.isActive && u.gpa == 0.0
    ensures u.email == NormalizeEmail(req.email) && u.name == Trim(req.name)
    ensures role == Admin ==>
      u.isEmailVerified && u.otp.None? && u.otpExpiry.None? && u.studentId.None? && u.semester.None?
    ensures role == Student ==>
      && !u.isEmailVerified && u.otp == Some(otp) && u.otpExpiry == Some(now + OtpLifetime)
      && u.studentId == TrimmedOr(req.studentId) && u.major == TrimmedOr(req.major)
      && u.semester == req.semester
  {
    var email := NormalizeEmail(req.email);
    match role
    case Admin =>
      User(newId, Trim(req.name), email, req.password, Admin, None, None, None, 0.0, None, None, true, true)
    case Student =>
      User(newId, Trim(req.name), email, req.password, Student, TrimmedOr(req.studentId),
           TrimmedOr(req.major), req.semester, 0.0, Some(otp), Some(now + OtpLifetime), false, true)
  }

  /**
   * POST /register. In order: the validators (400), a taken email (400),
   * for a student the missing student fields (400) and a taken student id
   * (400); then the create and the mail (`Admit`).
   */
  function Register(users: seq<User>, req: RegisterRequest, newId: Id, otp: string, now: Instant,
                    isEmail: string -> bool, mailSent: bool): (s: AuthStep)
    ensures s.code == 201 || s.code == 400 || s.code == 500
    ensures s.code == 400 ==> s.users == users
    ensures !RegisterRequestValid(req, isEmail) ==> s.code == 400
    ensures RegisterRequestValid(req, isEmail) && FindByEmail(users, NormalizeEmail(req.email)).Some? ==> s.code == 400
    ensures s.code != 400 ==>
      && RegisterRequestValid(req, isEmail)
      && FindByEmail(users, NormalizeEmail(req.email)).None?
      && var role := ParseRole(req.role).value;
         && s.users == users + [NewUser(req, role, newId, otp, now)]
         && ValidUser(NewUser(req, role, newId, otp, now))
         && (role == Student ==> Truthy(TrimmedOr(req.studentId)) && Truthy(TrimmedOr(req.major)) && req.semester.Some?)
         && (role == Student ==> FindByStudentId(users, TrimmedOr(req.studentId).value).None?)
         && (s.code == 500 <==> role == Student && !mailSent)
    ensures RegisterRequestValid(req, isEmail) && FindByEmail(users, NormalizeEmail(req.email)).None? ==>
      var role := ParseRole(req.role).value;
      (role == Student ==>
         Truthy(TrimmedOr(req.studentId)) && Truthy(TrimmedOr(req.major)) && req.semester.Some?
         && FindByStudentId(users, TrimmedOr(req.studentId).value).None?) ==>
      s == Admit(users, NewUser(req, role, newId, otp, now), mailSent)
  {
    if !RegisterRequestValid(req, isEmail) then AuthStep(400, users)
    else
      var role := ParseRole(req.role).value;
      if FindByEmail(users, NormalizeEmail(req.email)).Some? then AuthStep(400, users)
      else if role == Student && !(Truthy(TrimmedOr(req.studentId)) && Truthy(TrimmedOr(req.major)) && req.semester.Some?) then
        AuthStep(400, users)
      else if role == Student && FindByStudentId(users, TrimmedOr(req.studentId).value).Some? then
        AuthStep(400, users)
      else Admit(users, NewUser(req, role, newId, otp, now), mailSent)
  }

  /**
   * The create and the mail of POST /register: a validation error or a
   * key collision on create is a 400; a student is then mailed the OTP,
   * and when that fails the reply is 500 with the account already stored.
   */
  function Admit(users: seq<User>, u: User, mailSent: bool): (s: AuthStep)
    ensures s.code == 400 <==> !ValidUser(u) || FindById(users, u.id).Some?
    ensures s.code == 400 ==> s.users == users
    ensures s.code != 400 ==>
      && s.users == users + [u]
      && (s.code == 201 || s.code == 500)
      && (s.code == 500 <==> u.role == Student && !mailSent)
  {
    if !ValidUser(u) || FindById(users, u.id).Some? then AuthStep(400, users)
    else if u.role == Student && !mailSent then AuthStep(500, users + [u])
    else AuthStep(201, users + [u])
  }

  /** Registration never breaks the user collection's rules, and leaves every existing user as it was. */
  lemma RegisterKeepsValidUsers(users: seq<User>, req: RegisterRequest, newId: Id, otp: string, now: Instant,
                                isEmail: string -> bool, mailSent: bool)
    requires ValidUsers(users)
    ensures ValidUsers(Register(users, req, newId, otp, now, isEmail, mailSent).users)
    ensures forall i :: 0 <= i < |users| ==> Register(users, req, newId, otp, now, isEmail, mailSent).users[i] == users[i]
  {
    var s := Register(users, req, newId, otp, now, isEmail, mailSent);
    if s.code != 400 {
      var role := ParseRole(req.role).value;
      var u := NewUser(req, role, newId, otp, now);
      assert s.users == users + [u];
      assert ValidUser(u) && FindById(users, newId).None? && FindByEmail(users, u.email).None?;
      assert u.studentId.Some? ==> role == Student && u.studentId == TrimmedOr(req.studentId);
      AppendKeepsValid(users, u);
    }
  }

  lemma AppendKeepsValid(users: seq<User>, u: User)
    requires ValidUsers(users) && ValidUser(u)
    requires FindById(users, u.id).None? && FindByEmail(users, u.email).None?
    requires u.studentId.Some? ==> FindByStudentId(users, u.studentId.value).None?
    ensures ValidUsers(users + [u])
  {
    AppendKeepsUnique(users, u);
    assert forall i :: 0 <= i < |users| ==> (users + [u])[i] == users[i];
  }

  lemma AppendKeepsUnique(users: seq<User>, u: User)
    requires UniqueUsers(users)
    requires FindById(users, u.id).None? && FindByEmail(users, u.email).None?
    requires u.studentId.Some? ==> FindByStudentId(users, u.studentId.value).None?
    ensures UniqueUsers(users + [u])
  {
    var after := users + [u];
    forall i, j | 0 <= i < j < |after|
      ensures after[i].id != after[j].id && after[i].email != after[j].email
      ensures after[i].studentId.Some? ==> after[i].studentId != after[j].studentId
    {
      assert after[i] == users[i];
      if j < |users| {
        assert after[j] == users[j];
      } else {
        assert after[j] == u;
      }
    }
  }

  /** The validators of POST /verify-otp: an address, and a code of six characters. */
  predicate VerifyRequestValid(email: string, otp: string, isEmail: string -> bool) {
    isEmail(email) && |otp| == 6
  }

  /** `new Date() > user.otpExpiry`: a missing expiry never counts as passed. */
  predicate Expired(u: User, now: Instant) {
    u.otpExpiry.Some? && now > u.otpExpiry.value
  }

  /** The user after a successful verification. */
  function Verified(u: User): (v: User)
    ensures v.isEmailVerified && v.otp.None? && v.otpExpiry.None?
    ensures v.id == u.id && v.email == u.email && v.role == u.role && v.password == u.password
  {
    u.(isEmailVerified := true, otp := None, otpExpiry := None)
  }

  /**
   * POST /verify-otp. In order: the validators (400), an unknown email
   * (404), an account already verified (400), a wrong code (400), a code
   * past its expiry (400; the expiry instant itself is still accepted).
   * Success marks the account verified and clears both OTP fields; the
   * save re-validates the document (500 on failure).
   */
  function VerifyOtp(users: seq<User>, email: string, otp: string, now: Instant, isEmail: string -> bool): (s: AuthStep)
    ensures s.code == 200 || s.code == 400 || s.code == 404 || s.code == 500
    ensures s.code != 200 ==> s.users == users
    ensures !VerifyRequestValid(email, otp, isEmail) ==> s.code == 400
    ensures s.code == 500 <==>
      && VerifyRequestValid(email, otp, isEmail)
      && FindByEmail(users, NormalizeEmail(email)).Some?
      && var u := users[FindByEmail(users, NormalizeEmail(email)).value];
         !u.isEmailVerified && u.otp == Some(otp) && !Expired(u, now) && !ValidUser(Verified(u))
    ensures VerifyRequestValid(email, otp, isEmail) ==>
      (s.code == 404 <==> FindByEmail(users, NormalizeEmail(email)).None?)
    ensures s.code == 200 <==>
      && VerifyRequestValid(email, otp, isEmail)
      && FindByEmail(users, NormalizeEmail(email)).Some?
      && var u := users[FindByEmail(users, NormalizeEmail(email)).value];
         !u.isEmailVerified && u.otp == Some(otp) && !Expired(u, now) && ValidUser(Verified(u))
    ensures s.code == 200 ==>
      var i := FindByEmail(users, NormalizeEmail(email)).value;
      s.users == users[i := Verified(users[i])]
    ensures |s.users| == |users|
    ensures forall i :: 0 <= i < |users| ==> users[i].isEmailVerified ==> s.users[i] == users[i]
    ensures ValidUsers(users) ==> ValidUsers(s.users)
  {
    if !VerifyRequestValid(email, otp, isEmail) then AuthStep(400, users)
    else match FindByEmail(users, NormalizeEmail(email))
      case None => AuthStep(404, users)
      case Some(i) =>
        var u := users[i];
        if u.isEmailVerified then AuthStep(400, users)
        else if u.otp != Some(otp) then AuthStep(400, users)
        else if Expired(u, now) then AuthStep(400, users)
        else if !ValidUser(Verified(u)) then AuthStep(500, users)
        else
          ReplaceKeepsValid(users, i, Verified(u));
          AuthStep(200, users[i := Verified(u)])
  }

  /** A valid user put in place of one with the same keys keeps the collection valid. */
  lemma ReplaceKeepsValid(users: seq<User>, i: nat, v: User)
    requires i < |users| && ValidUser(v)
    requires v.id == users[i].id && v.email == users[i].email && v.studentId == users[i].studentId
    ensures ValidUsers(users) ==> ValidUsers(users[i := v])
  {
    if ValidUsers(users) {
      var after := users[i := v];
      forall j, k | 0 <= j < k < |after|
        ensures after[j].id != after[k].id && after[j].email != after[k].email
        ensures after[j].studentId.Some? ==> after[j].studentId != after[k].studentId
      {
        assert after[j].id == users[j].id && after[j].email == users[j].email && after[j].studentId == users[j].studentId;
        assert after[k].id == users[k].id && after[k].email == users[k].email && after[k].studentId == users[k].studentId;
      }
    }
  }

  /** The user after a new OTP is issued at `now`. */
  function Reissued(u: User, otp: string, now: Instant): (v: User)
    ensures v.otp == Some(otp) && v.otpExpiry == Some(now + OtpLifetime)
    ensures v.isEmailVerified == u.isEmailVerified && v.id == u.id && v.email == u.email && v.role == u.role
  {
    u.(otp := Some(otp), otpExpiry := Some(now + OtpLifetime))
  }

  /**
   * POST /resend-otp (its validator's verdict is never consulted). In
   * order: an unknown email (404), an account already verified (400);
   * otherwise the OTP is replaced and its expiry reset, the save
   * re-validates (500 on failure), and a failed mail is a 500 after the
   * new OTP is stored.
   */
  function ResendOtp(users: seq<User>, email: string, otp: string, now: Instant, mailSent: bool): (s: AuthStep)
    ensures s.code == 200 || s.code == 400 || s.code == 404 || s.code == 500
    ensures s.code == 404 <==> FindByEmail(users, NormalizeEmail(email)).None?
    ensures s.code == 400 <==>
      FindByEmail(users, NormalizeEmail(email)).Some? && users[FindByEmail(users, NormalizeEmail(email)).value].isEmailVerified
    ensures s.code == 400 || s.code == 404 ==> s.users == users
    ensures s.code == 200 || s.code == 500 ==>
      var i := FindByEmail(users, NormalizeEmail(email)).value;
      && !users[i].isEmailVerified
      && (s.code == 200 || s.users != users ==> s.users == users[i := Reissued(users[i], otp, now)])
    ensures s.code == 200 ==> mailSent
    ensures FindByEmail(users, NormalizeEmail(email)).Some? ==>
      var i := FindByEmail(users, NormalizeEmail(email)).value;
      !users[i].isEmailVerified && ValidUser(Reissued(users[i], otp, now)) ==>
        s.users == users[i := Reissued(users[i], otp, now)] && (s.code == 200 <==> mailSent)
    ensures |s.users| == |users|
    ensures forall i :: 0 <= i < |users| ==> users[i].isEmailVerified ==> s.users[i] == users[i]
    ensures ValidUsers(users) ==> ValidUsers(s.users)
  {
    match FindByEmail(users, NormalizeEmail(email))
    case None => AuthStep(404, users)
    case Some(i) =>
      var u := users[i];
      if u.isEmailVerified then AuthStep(400, users)
      else
        var v := Reissued(u, otp, now);
        if !ValidUser(v) then AuthStep(500, users)
        else
          ReplaceKeepsValid(users, i, v);
          var after := users[i := v];
          if !mailSent then AuthStep(500, after) else AuthStep(200, after)
  }

  /**
   * POST /login: the validators (400), an unknown email or a password that
   * does not match (401), an unverified student (403), else 200.
   */
  function Login(users: seq<User>, email: string, password: string, isEmail: string -> bool,
                 passwordMatches: (string, string) -> bool): (code: int)
    ensures code == 200 || code == 400 || code == 401 || code == 403
    ensures code == 400 <==> !isEmail(email) || password == []
    ensures code == 401 <==>
      (isEmail(email) && password != [] &&
       (FindByEmail(users, NormalizeEmail(email)).None?
        || !passwordMatches(users[FindByEmail(users, NormalizeEmail(email)).value].password, password)))
    ensures code == 403 ==>
      var u := users[FindByEmail(users, NormalizeEmail(email)).value];
      u.role == Student && !u.isEmailVerified
    ensures code == 200 ==>
      var u := users[FindByEmail(users, NormalizeEmail(email)).value];
      passwordMatches(u.password, password) && (u.role == Admin || u.isEmailVerified)
  {
    if !isEmail(email) || password == [] then 400
    else match FindByEmail(users, NormalizeEmail(email))
      case None => 401
      case Some(i) =>
        var u := users[i];
        if !passwordMatches(u.password, password) then 401
        else if u.role == Student && !u.isEmailVerified then 403
        else 200
  }

  /** An admin whose password matches is never held back for verification. */
  lemma AdminNeverGated(users: seq<User>, email: string, password: string, isEmail: string -> bool,
                        passwordMatches: (string, string) -> bool)
    requires isEmail(email) && password != []
    requires FindByEmail(users, NormalizeEmail(email)).Some?
    requires var u := users[FindByEmail(users, NormalizeEmail(email)).value];
             u.role == Admin && passwordMatches(u.password, password)
    ensures Login(users, email, password, isEmail, passwordMatches) == 200
  {
  }

  /** The code is still accepted at the very instant it expires. */
  lemma ExpiryInstantAccepted(users: seq<User>, email: string, otp: string, isEmail: string -> bool)
    requires VerifyRequestValid(email, otp, isEmail)
    requires FindByEmail(users, NormalizeEmail(email)).Some?
    requires var u := users[FindByEmail(users, NormalizeEmail(email)).value];
             !u.isEmailVerified && u.otp == Some(otp) && u.otpExpiry.Some? && ValidUser(Verified(u))
    ensures VerifyOtp(users, email, otp, users[FindByEmail(users, NormalizeEmail(email)).value].otpExpiry.value, isEmail).code == 200
    ensures VerifyOtp(users, email, otp, users[FindByEmail(users, NormalizeEmail(email)).value].otpExpiry.value + 1, isEmail).code == 400
  {
  }

  /**
   * A student who registered at `now` and enters the mailed code within
   * the lifetime, at an address that normalises to the stored one, is
   * verified.
   */
  lemma {:induction false} RegisterThenVerify(users: seq<User>, req: RegisterRequest, newId: Id, otp: string, now: Instant,
                                             later: Instant, isEmail: string -> bool, mailSent: bool)
    requires Register(users, req, newId, otp, now, isEmail, mailSent).code == 201
    requires ParseRole(req.role) == Some(Student)
    requires |otp| == 6 && later <= now + OtpLifetime
    ensures VerifyOtp(Register(users, req, newId, otp, now, isEmail, mailSent).users, req.email, otp, later, isEmail).code == 200
  {
    var u := NewUser(req, Student, newId, otp, now);
    var after := Register(users, req, newId, otp, now, isEmail, mailSent).users;
    assert after == users + [u] && ValidUser(u);
    FindByEmailAppended(users, u);
    assert ValidUser(Verified(u));
  }

  /** An address no user has is found at the end once a user with it is appended. */
  lemma FindByEmailAppended(users: seq<User>, u: User)
    requires FindByEmail(users, u.email).None?
    ensures FindByEmail(users + [u], u.email) == Some(|users|)
  {
    var after := users + [u];
    assert forall i :: 0 <= i < |users| ==> after[i].email != u.email;
    assert after[|users|] == u;
  }

  /** Once verified, a student whose password matches can log in. */
  lemma VerifyThenLogin(users: seq<User>, email: string, otp: string, now: Instant, password: string,
                        isEmail: string -> bool, passwordMatches: (string, string) -> bool)
    requires VerifyOtp(users, email, otp, now, isEmail).code == 200
    requires password != []
    requires passwordMatches(users[FindByEmail(users, NormalizeEmail(email)).value].password, password)
    ensures Login(VerifyOtp(users, email, otp, now, isEmail).users, email, password, isEmail, passwordMatches) == 200
  {
    var i := FindByEmail(users, NormalizeEmail(email)).value;
    var after := VerifyOtp(users, email, otp, now, isEmail).users;
    assert after[i].email == NormalizeEmail(email);
    assert FindByEmail(after, NormalizeEmail(email)) == Some(i) by {
      assert forall k :: 0 <= k < i ==> after[k] == users[k];
    }
  }

  /**
   * After a resend at `now`, the new code is accepted until its fresh
   * expiry even if the old one had already lapsed.
   */
  lemma ResendThenVerify(users: seq<User>, email: string, otp: string, now: Instant, later: Instant,
                         isEmail: string -> bool)
    requires ValidUsers(users)
    requires ResendOtp(users, email, otp, now, true).code == 200
    requires VerifyRequestValid(email, otp, isEmail) && later <= now + OtpLifetime
    ensures VerifyOtp(ResendOtp(users, email, otp, now, true).users, email, otp, later, isEmail).code == 200
  {
    var i := FindByEmail(users, NormalizeEmail(email)).value;
    var after := ResendOtp(users, email, otp, now, true).users;
    assert after == users[i := Reissued(users[i], otp, now)];
    assert FindByEmail(after, NormalizeEmail(email)) == Some(i) by {
      assert forall k :: 0 <= k < i ==> after[k] == users[k];
    }
    assert ValidUser(after[i]);
  }
}
