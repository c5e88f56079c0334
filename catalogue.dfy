/**
 * The course catalogue handlers of backend/routes/courses.js: the filtered,
 * sorted list, lookup by id, and create, update and hard delete, over the
 * course collection.
 */
module Catalogue {
  import opened Common
  import opened Seqs
  import opened Text
  import opened CourseSchema
  import opened Ledger

  /** String order by code unit, which is MongoDB's order on ASCII strings. */
  predicate LexLe(a: string, b: string)
    decreases |a|
  {
    a == [] || (b != [] && (a[0] < b[0] || (a[0] == b[0] && LexLe(a[1..], b[1..]))))
  }

  lemma {:induction false} LexLeTotal(a: string, b: string)
    ensures LexLe(a, b) || LexLe(b, a)
    decreases |a|
  {
    if a != [] && b != [] && a[0] == b[0] {
      LexLeTotal(a[1..], b[1..]);
    }
  }

  lemma {:induction false} LexLeTransitive(a: string, b: string, c: string)
    requires LexLe(a, b) && LexLe(b, c)
    ensures LexLe(a, c)
    decreases |a|
  {
    if a != [] && a[0] == b[0] && b[0] == c[0] {
      LexLeTransitive(a[1..], b[1..], c[1..]);
    }
  }

  lemma {:induction false} LexLeAntisymmetric(a: string, b: string)
    requires LexLe(a, b) && LexLe(b, a)
    ensures a == b
    decreases |a|
  {
    if a != [] {
      LexLeAntisymmetric(a[1..], b[1..]);
      assert a == [a[0]] + a[1..] && b == [b[0]] + b[1..];
    }
  }

  /** `.sort({ courseCode: 1 })` */
  predicate SortedByCode(s: seq<Course>) {
    forall i, j :: 0 <= i < j < |s| ==> LexLe(s[i].courseCode, s[j].courseCode)
  }

  lemma ConsSorted(c: Course, s: seq<Course>)
    requires SortedByCode(s)
    requires forall j :: 0 <= j < |s| ==> LexLe(c.courseCode, s[j].courseCode)
    ensures SortedByCode([c] + s)
  {
    var r := [c] + s;
    forall i, j | 0 <= i < j < |r|
      ensures LexLe(r[i].courseCode, r[j].courseCode)
    {
      if i > 0 {
        assert r[i] == s[i - 1] && r[j] == s[j - 1];
      }
    }
  }

  /** Inserts `c` after every course whose code is smaller. */
  function Insert(c: Course, s: seq<Course>): (r: seq<Course>)
    requires SortedByCode(s)
    ensures SortedByCode(r)
    ensures multiset(r) == multiset(s) + multiset{c}
    ensures forall k :: 0 <= k < |r| ==> r[k] == c || r[k] in s
    decreases |s|
  {
    if s == [] then [c]
    else if LexLe(c.courseCode, s[0].courseCode) then
      InsertFront(c, s);
      [c] + s
    else
      LexLeTotal(c.courseCode, s[0].courseCode);
      var rest := Insert(c, s[1..]);
      InsertBehind(c, s, rest);
      assert s == [s[0]] + s[1..];
      [s[0]] + rest
  }

  lemma InsertFront(c: Course, s: seq<Course>)
    requires SortedByCode(s) && s != [] && LexLe(c.courseCode, s[0].courseCode)
    ensures SortedByCode([c] + s)
  {
    forall j | 0 <= j < |s|
      ensures LexLe(c.courseCode, s[j].courseCode)
    {
      if j > 0 {
        LexLeTransitive(c.courseCode, s[0].courseCode, s[j].courseCode);
      }
    }
    ConsSorted(c, s);
  }

  lemma InsertBehind(c: Course, s: seq<Course>, rest: seq<Course>)
    requires SortedByCode(s) && s != [] && LexLe(s[0].courseCode, c.courseCode)
    requires SortedByCode(rest)
    requires forall k :: 0 <= k < |rest| ==> rest[k] == c || rest[k] in s[1..]
    ensures SortedByCode([s[0]] + rest)
  {
    forall k | 0 <= k < |rest|
      ensures LexLe(s[0].courseCode, rest[k].courseCode)
    {
      if rest[k] != c {
        var j :| 0 <= j < |s[1..]| && s[1..][j] == rest[k];
        assert s[j + 1] == rest[k];
      }
    }
    ConsSorted(s[0], rest);
  }

  function SortByCode(s: seq<Course>): (r: seq<Course>)
    ensures SortedByCode(r)
    ensures multiset(r) == multiset(s)
  {
    if s == [] then []
    else
      assert s == [s[0]] + s[1..];
      Insert(s[0], SortByCode(s[1..]))
  }

  /** The department filter is added only for a given department other than `'All Departments'`. */
  predicate DepartmentApplies(department: Option<string>) {
    department.Some? && department.value != "" && department.value != "All Departments"
  }

  /** The search clause is added only for a non-empty term. */
  predicate SearchApplies(search: Option<string>) {
    search.Some? && search.value != ""
  }

  /** The `$or` of the three case-insensitive matches. */
  predicate MatchesSearch(c: Course, term: string) {
    ContainsIgnoringCase(c.title, term) || ContainsIgnoringCase(c.courseCode, term)
    || ContainsIgnoringCase(c.description, term)
  }

  /** The query object `{ isActive: true, department?, $or? }`. */
  predicate Listed(c: Course, department: Option<string>, search: Option<string>) {
    && c.isActive
    && (DepartmentApplies(department) ==> c.department == department.value)
    && (SearchApplies(search) ==> MatchesSearch(c, search.value))
  }

  /** GET /: the courses the query selects, in ascending code order. */
  function ListCourses(courses: seq<Course>, department: Option<string>, search: Option<string>): (r: seq<Course>)
    ensures SortedByCode(r)
    ensures multiset(r) == multiset(Filter(courses, (c: Course) => Listed(c, department, search)))
    ensures forall i :: 0 <= i < |r| ==> r[i] in courses && Listed(r[i], department, search)
    ensures forall j :: 0 <= j < |courses| && Listed(courses[j], department, search) ==> courses[j] in r
  {
    var selected := Filter(courses, (c: Course) => Listed(c, department, search));
    var r := SortByCode(selected);
    SameElements(r, selected);
    r
  }

  lemma SameElements(r: seq<Course>, s: seq<Course>)
    requires multiset(r) == multiset(s)
    ensures forall i :: 0 <= i < |r| ==> r[i] in s
    ensures forall j :: 0 <= j < |s| ==> s[j] in r
  {
    forall i | 0 <= i < |r|
      ensures r[i] in s
    {
      assert r[i] in multiset(r);
    }
    forall j | 0 <= j < |s|
      ensures s[j] in r
    {
      assert s[j] in multiset(s);
    }
  }

  /**
   * GET /:id: a malformed id is rejected with 400 before any lookup, an
   * absent course is 404.
   */
  function GetCourse(courses: seq<Course>, id: Id, validId: Id -> bool): (r: Reply<Course>)
    ensures !validId(id) ==> r == Failure(400)
    ensures validId(id) && FindCourse(courses, id).None? ==> r == Failure(404)
    ensures validId(id) && FindCourse(courses, id).Some? ==> r == Success(courses[FindCourse(courses, id).value])
    ensures r.Success? ==> r.body in courses && r.body.id == id
  {
    if !validId(id) then Failure(400)
    else match FindCourse(courses, id)
      case None => Failure(404)
      case Some(k) => Success(courses[k])
  }

  /** A handler's HTTP status and the course collection it leaves behind. */
  datatype Change = Change(code: int, courses: seq<Course>)

  predicate UniqueCodes(courses: seq<Course>) {
    forall i, j :: 0 <= i < j < |courses| ==> courses[i].courseCode != courses[j].courseCode
  }

  /** What the schema and its unique indexes keep true of the collection. */
  predicate ValidCatalogue(courses: seq<Course>) {
    && UniqueCourseIds(courses)
    && UniqueCodes(courses)
    && forall k :: 0 <= k < |courses| ==> ValidCourse(courses[k])
  }

  function FindCode(courses: seq<Course>, code: string): (r: Option<nat>)
    ensures r.None? <==> forall k :: 0 <= k < |courses| ==> courses[k].courseCode != code
    ensures r.Some? ==> r.value < |courses| && courses[r.value].courseCode == code
  {
    FirstIndex(courses, (c: Course) => c.courseCode == code)
  }

  /**
   * POST /: `Course.create(body)` under the fresh id `newId`. A validation
   * error and a unique-index collision (on the code or the id) are both
   * reported as 500.
   */
  function CreateCourse(courses: seq<Course>, newId: Id, body: CourseBody): (r: Change)
    ensures r.code == 201 || r.code == 500
    ensures r.code == 500 ==> r.courses == courses
    ensures r.code == 201 <==>
      && CourseFromBody(newId, body).Some?
      && FindCode(courses, ToUpper(body.courseCode.value)).None?
      && FindCourse(courses, newId).None?
    ensures r.code == 201 ==> r.courses == courses + [CourseFromBody(newId, body).value]
    ensures ValidCatalogue(courses) ==> ValidCatalogue(r.courses)
  {
    match CourseFromBody(newId, body)
    case None => Change(500, courses)
    case Some(c) =>
      if FindCode(courses, c.courseCode).Some? || FindCourse(courses, newId).Some? then Change(500, courses)
      else
        assert forall k :: 0 <= k < |courses| ==> courses[k].id != c.id && courses[k].courseCode != c.courseCode;
        Change(201, courses + [c])
  }

  /**
   * PUT /:id: a malformed id is 400; then the update validators run on the
   * given fields (a failure is 500) before the lookup (absent: 404); a code
   * taken by another course hits the unique index (500). Otherwise the
   * given fields overwrite the stored ones.
   */
  function UpdateCourse(courses: seq<Course>, id: Id, body: CourseBody, validId: Id -> bool): (r: Change)
    ensures r.code == 200 || r.code == 400 || r.code == 404 || r.code == 500
    ensures r.code != 200 ==> r.courses == courses
    ensures !validId(id) ==> r.code == 400
    ensures validId(id) && !GivenFieldsValid(body) ==> r.code == 500
    ensures validId(id) && GivenFieldsValid(body) ==> (r.code == 404 <==> FindCourse(courses, id).None?)
    ensures validId(id) && GivenFieldsValid(body) && FindCourse(courses, id).Some? ==>
      var k := FindCourse(courses, id).value;
      (r.code == 200 <==>
         forall j :: 0 <= j < |courses| && j != k ==> courses[j].courseCode != ApplyBody(courses[k], body).courseCode)
    ensures r.code == 200 ==>
      && GivenFieldsValid(body)
      && var k := FindCourse(courses, id).value;
         && r.courses == courses[k := ApplyBody(courses[k], body)]
         && (body.courseCode.Some? ==>
               forall j :: 0 <= j < |courses| && j != k ==> courses[j].courseCode != ToUpper(body.courseCode.value))
    ensures ValidCatalogue(courses) ==> ValidCatalogue(r.courses)
  {
    if !validId(id) then Change(400, courses)
    else if !GivenFieldsValid(body) then Change(500, courses)
    else match FindCourse(courses, id)
      case None => Change(404, courses)
      case Some(k) =>
        var c := ApplyBody(courses[k], body);
        if exists j :: 0 <= j < |courses| && j != k && courses[j].courseCode == c.courseCode then
          Change(500, courses)
        else
          Change(200, courses[k := c])
  }

  /**
   * DELETE /:id: a malformed id is 400, an absent course 404; otherwise the
   * course is removed outright. Enrollment rows are not a parameter: none
   * is touched.
   */
  function DeleteCourse(courses: seq<Course>, id: Id, validId: Id -> bool): (r: Change)
    ensures r.code == 200 || r.code == 400 || r.code == 404
    ensures r.code != 200 ==> r.courses == courses
    ensures !validId(id) ==> r.code == 400
    ensures validId(id) ==> (r.code == 404 <==> FindCourse(courses, id).None?)
    ensures validId(id) && FindCourse(courses, id).Some? ==> r.code == 200
    ensures r.code == 200 ==> r.courses == RemoveAt(courses, FindCourse(courses, id).value)
    ensures r.code == 200 && UniqueCourseIds(courses) ==> forall k :: 0 <= k < |r.courses| ==> r.courses[k].id != id
    ensures ValidCatalogue(courses) ==> ValidCatalogue(r.courses)
  {
    if !validId(id) then Change(400, courses)
    else match FindCourse(courses, id)
      case None => Change(404, courses)
      case Some(k) => Change(200, RemoveAt(courses, k))
  }

  /** Once deleted, a course cannot be fetched. */
  lemma GetAfterDelete(courses: seq<Course>, id: Id, validId: Id -> bool)
    requires UniqueCourseIds(courses) && validId(id)
    ensures GetCourse(DeleteCourse(courses, id, validId).courses, id, validId) == Failure(404)
  {
  }

  /** A created course is what a later lookup of its id returns. */
  lemma GetAfterCreate(courses: seq<Course>, newId: Id, body: CourseBody, validId: Id -> bool)
    requires validId(newId) && CreateCourse(courses, newId, body).code == 201
    ensures GetCourse(CreateCourse(courses, newId, body).courses, newId, validId)
         == Success(CourseFromBody(newId, body).value)
  {
    var after := CreateCourse(courses, newId, body).courses;
    assert after[|courses|].id == newId;
    assert FindCourse(after, newId) == Some(|courses|);
  }

  /**
   * A course removed from the catalogue leaves every other course's counter
   * consistent: deletion keeps the ledger invariant except that the
   * course's rows are left behind.
   */
  lemma DeleteKeepsLedgerInvariant(l: Ledger, id: Id, validId: Id -> bool)
    requires Invariant(l)
    ensures Invariant(Ledger(DeleteCourse(l.courses, id, validId).courses, l.rows))
  {
    var r := DeleteCourse(l.courses, id, validId);
    if r.code == 200 {
      var k := FindCourse(l.courses, id).value;
      forall i, j | 0 <= i < j < |r.courses|
        ensures r.courses[i].id != r.courses[j].id
      {
        var i' := if i < k then i else i + 1;
        var j' := if j < k then j else j + 1;
        assert r.courses[i] == l.courses[i'] && r.courses[j] == l.courses[j'];
      }
    }
  }

  /**
   * An update may lower the capacity below the counter: the ledger
   * invariant holds before, and no longer after a successful update.
   */
  lemma UpdateCanOverfill()
    ensures exists l: Ledger, id: Id, body: CourseBody, validId: Id -> bool ::
      && Invariant(l)
      && UpdateCourse(l.courses, id, body, validId).code == 200
      && !WithinCapacity(Ledger(UpdateCourse(l.courses, id, body, validId).courses, l.rows))
  {
    var c := Course("c1", "CS101", "Intro", "Basics", 3, "CS", "Ada",
                    Schedule([], "10:00", "R1"), 2, 2, [], "Even", 2025, true, []);
    var e1 := EnrollmentSchema.Enrollment("e1", "s1", "c1", EnrollmentSchema.Enrolled, None, 0);
    var e2 := EnrollmentSchema.Enrollment("e2", "s2", "c1", EnrollmentSchema.Enrolled, None, 0);
    var l := Ledger([c], [e1, e2]);
    var body := CourseBody(None, None, None, None, None, None, None, Some(1), None, None, None, None, None);
    var validId := (s: Id) => true;
    FullCourseInvariant(c, e1, e2);
    assert FindCourse(l.courses, "c1") == Some(0);
    CapacityOnlyUpdate(l.courses, "c1", 0, 1, validId);
    var r := UpdateCourse(l.courses, "c1", body, validId);
    assert r.courses[0].enrolled == 2 > r.courses[0].capacity;
    assert Invariant(l) && r.code == 200 && !WithinCapacity(Ledger(r.courses, l.rows));
  }

  /**
   * A body that sets only the capacity, applied to a course whose code no
   * other course shares, succeeds and changes that course's capacity and
   * nothing else: no check against the counter is made.
   */
  lemma CapacityOnlyUpdate(courses: seq<Course>, id: Id, k: nat, capacity: int, validId: Id -> bool)
    requires validId(id) && FindCourse(courses, id) == Some(k) && capacity >= MinCapacity
    requires forall j :: 0 <= j < |courses| && j != k ==> courses[j].courseCode != courses[k].courseCode
    ensures var body := CourseBody(None, None, None, None, None, None, None, Some(capacity), None, None, None, None, None);
            var r := UpdateCourse(courses, id, body, validId);
            r.code == 200 && r.courses == courses[k := courses[k].(capacity := capacity)]
  {
    var body := CourseBody(None, None, None, None, None, None, None, Some(capacity), None, None, None, None, None);
    assert ApplyBody(courses[k], body) == courses[k].(capacity := capacity);
  }

  /** A lone course whose two seats are taken by two students' active rows satisfies the ledger invariant. */
  lemma FullCourseInvariant(c: Course, e1: EnrollmentSchema.Enrollment, e2: EnrollmentSchema.Enrollment)
    requires c.enrolled == 2 <= c.capacity
    requires ActiveIn(c.id)(e1) && ActiveIn(c.id)(e2) && e1.student != e2.student
    ensures Invariant(Ledger([c], [e1, e2]))
  {
    assert Filter([e2], ActiveIn(c.id)) == [e2];
    FilterAppend([e1], [e2], ActiveIn(c.id));
    assert [e1, e2] == [e1] + [e2];
  }

}
