/**
 * The enrollment ledger: the enroll and drop handlers of
 * backend/routes/enrollments.js as transitions of the two collections they
 * touch, and the invariants those transitions keep when applied one after
 * another.
 */
module Ledger {
  import opened Common
  import opened Seqs
  import opened CourseSchema
  import opened EnrollmentSchema

  /** The course and enrollment collections, each in natural order. */
  datatype Ledger = Ledger(courses: seq<Course>, rows: seq<Enrollment>)

  /** A handler's HTTP status and the collections it leaves behind. */
  datatype Step = Step(code: int, after: Ledger)

  /** `Course.findById(id)` */
  function FindCourse(courses: seq<Course>, id: Id): (r: Option<nat>)
    ensures r.None? <==> forall k :: 0 <= k < |courses| ==> courses[k].id != id
    ensures r.Some? ==> r.value < |courses| && courses[r.value].id == id
  {
    FirstIndex(courses, (c: Course) => c.id == id)
  }

  predicate UniqueCourseIds(courses: seq<Course>) {
    forall i, j :: 0 <= i < j < |courses| ==> courses[i].id != courses[j].id
  }

  /** An active (status `enrolled`) row of course `cid`. */
  function ActiveIn(cid: Id): Enrollment -> bool {
    (r: Enrollment) => r.course == cid && r.status == Enrolled
  }

  /** `Enrollment.find({ course, status: 'enrolled' })` */
  function ActiveRows(rows: seq<Enrollment>, cid: Id): seq<Enrollment> {
    Filter(rows, ActiveIn(cid))
  }

  function ActiveCount(rows: seq<Enrollment>, cid: Id): nat {
    |ActiveRows(rows, cid)|
  }

  predicate IsActiveFor(r: Enrollment, student: Id, cid: Id) {
    r.student == student && r.course == cid && r.status == Enrolled
  }

  /** `Enrollment.findOne({ student, course, status: 'enrolled' })` */
  function FindActive(rows: seq<Enrollment>, student: Id, cid: Id): (r: Option<nat>)
    ensures r.None? <==> forall i :: 0 <= i < |rows| ==> !IsActiveFor(rows[i], student, cid)
    ensures r.Some? ==> r.value < |rows| && IsActiveFor(rows[r.value], student, cid)
  {
    FirstIndex(rows, (e: Enrollment) => IsActiveFor(e, student, cid))
  }

  /** A row of the pair in any status: what the unique index would collide with. */
  function FindPair(rows: seq<Enrollment>, student: Id, cid: Id): (r: Option<nat>)
    ensures r.None? <==> forall i :: 0 <= i < |rows| ==> !(rows[i].student == student && rows[i].course == cid)
    ensures r.Some? ==> r.value < |rows| && rows[r.value].student == student && rows[r.value].course == cid
  {
    FirstIndex(rows, (e: Enrollment) => e.student == student && e.course == cid)
  }

  /** The denormalised counter of every course equals its number of active rows. */
  predicate CounterConsistent(l: Ledger) {
    forall k :: 0 <= k < |l.courses| ==> l.courses[k].enrolled == ActiveCount(l.rows, l.courses[k].id)
  }

  predicate WithinCapacity(l: Ledger) {
    forall k :: 0 <= k < |l.courses| ==> l.courses[k].enrolled <= l.courses[k].capacity
  }

  /** The ledger invariant: what sequential enroll and drop calls maintain. */
  predicate Invariant(l: Ledger) {
    && UniqueCourseIds(l.courses)
    && UniquePairs(l.rows)
    && CounterConsistent(l)
    && WithinCapacity(l)
  }

  /**
   * POST /enroll/:courseId by `student` at instant `now`; `newId` is the id
   * the driver assigns to a created row and `validId` says which strings
   * cast to an ObjectId (a failed cast is a thrown error, hence 500).
   * The guards run in a fixed order: missing course 404, inactive 400,
   * `enrolled >= capacity` 400, an active row for the pair 400. A row of
   * the pair in another status makes the create hit the unique index: 500.
   */
  function Enroll(l: Ledger, student: Id, cid: Id, newId: Id, now: Instant, validId: Id -> bool): (s: Step)
    ensures s.code != 201 ==> s.after == l
    ensures !validId(cid) ==> s.code == 500
    ensures validId(cid) ==> (s.code == 404 <==> FindCourse(l.courses, cid).None?)
    ensures validId(cid) && FindCourse(l.courses, cid).Some? ==>
      var c := l.courses[FindCourse(l.courses, cid).value];
      && (!c.isActive ==> s.code == 400)
      && (c.isActive && c.enrolled >= c.capacity ==> s.code == 400)
      && (c.isActive && c.enrolled < c.capacity && FindActive(l.rows, student, cid).Some? ==> s.code == 400)
      && ((c.isActive && c.enrolled < c.capacity && FindActive(l.rows, student, cid).None?
           && FindPair(l.rows, student, cid).Some?) ==> s.code == 500)
      && (c.isActive && c.enrolled < c.capacity && FindPair(l.rows, student, cid).None? ==> s.code == 201)
    ensures s.code == 201 ==>
      && s.after.rows == l.rows + [NewEnrollment(newId, student, cid, Some(Enrolled), now)]
      && var k := FindCourse(l.courses, cid).value;
         s.after.courses == l.courses[k := l.courses[k].(enrolled := l.courses[k].enrolled + 1)]
    ensures WithinCapacity(l) ==> WithinCapacity(s.after)
  {
    if !validId(cid) then Step(500, l)
    else match FindCourse(l.courses, cid)
      case None => Step(404, l)
      case Some(k) =>
        var c := l.courses[k];
        if !c.isActive then Step(400, l)
        else if c.enrolled >= c.capacity then Step(400, l)
        else if FindActive(l.rows, student, cid).Some? then Step(400, l)
        else if FindPair(l.rows, student, cid).Some? then Step(500, l)
        else
          var row := NewEnrollment(newId, student, cid, Some(Enrolled), now);
          Step(201, Ledger(l.courses[k := c.(enrolled := c.enrolled + 1)], l.rows + [row]))
  }

  /**
   * DELETE /drop/:courseId by `student`: deletes the pair's active row and
   * decrements the course counter, floored at 0. No active row: 404. The
   * course need not exist any more for the drop to succeed.
   */
  function Drop(l: Ledger, student: Id, cid: Id, validId: Id -> bool): (s: Step)
    ensures s.code == 200 || s.code == 404 || s.code == 500
    ensures s.code != 200 ==> s.after == l
    ensures s.code == 500 <==> !validId(cid)
    ensures s.code == 404 <==> validId(cid) && FindActive(l.rows, student, cid).None?
    ensures s.code == 200 ==>
      && s.after.rows == RemoveAt(l.rows, FindActive(l.rows, student, cid).value)
      && match FindCourse(l.courses, cid)
         case None => s.after.courses == l.courses
         case Some(k) => s.after.courses == l.courses[k := l.courses[k].(enrolled := Max(0, l.courses[k].enrolled - 1))]
  {
    if !validId(cid) then Step(500, l)
    else match FindActive(l.rows, student, cid)
      case None => Step(404, l)
      case Some(i) =>
        var rows := RemoveAt(l.rows, i);
        match FindCourse(l.courses, cid)
        case None => Step(200, Ledger(l.courses, rows))
        case Some(k) =>
          var c := l.courses[k];
          Step(200, Ledger(l.courses[k := c.(enrolled := Max(0, c.enrolled - 1))], rows))
  }

  lemma ActiveCountAppend(rows: seq<Enrollment>, r: Enrollment, cid: Id)
    ensures ActiveCount(rows + [r], cid) == ActiveCount(rows, cid) + (if ActiveIn(cid)(r) then 1 else 0)
  {
    FilterAppend(rows, [r], ActiveIn(cid));
    assert Filter([r], ActiveIn(cid)) == (if ActiveIn(cid)(r) then [r] else []);
  }

  lemma ActiveCountRemove(rows: seq<Enrollment>, i: nat, cid: Id)
    requires i < |rows|
    ensures ActiveCount(rows, cid) == ActiveCount(RemoveAt(rows, i), cid) + (if ActiveIn(cid)(rows[i]) then 1 else 0)
  {
    FilterRemoveAt(rows, i, ActiveIn(cid));
  }

  /** Enroll keeps the ledger invariant, on success and on every failure. */
  lemma EnrollPreservesInvariant(l: Ledger, student: Id, cid: Id, newId: Id, now: Instant, validId: Id -> bool)
    requires Invariant(l)
    ensures Invariant(Enroll(l, student, cid, newId, now, validId).after)
  {
    var s := Enroll(l, student, cid, newId, now, validId);
    if s.code == 201 {
      var k := FindCourse(l.courses, cid).value;
      var row := NewEnrollment(newId, student, cid, Some(Enrolled), now);
      var a := s.after;
      forall j | 0 <= j < |a.courses|
        ensures a.courses[j].enrolled == ActiveCount(a.rows, a.courses[j].id)
      {
        ActiveCountAppend(l.rows, row, l.courses[j].id);
      }
      assert FindPair(l.rows, student, cid).None?;
      forall i, j | 0 <= i < j < |a.rows|
        ensures !SamePair(a.rows[i], a.rows[j])
      {
        if j == |l.rows| {
          assert a.rows[j] == row;
        } else {
          assert a.rows[i] == l.rows[i] && a.rows[j] == l.rows[j];
        }
      }
    }
  }

  /** Removing a row keeps at most one row per pair. */
  lemma RemovePreservesUniquePairs(rows: seq<Enrollment>, i: nat)
    requires i < |rows| && UniquePairs(rows)
    ensures UniquePairs(RemoveAt(rows, i))
  {
    var a := RemoveAt(rows, i);
    forall p, q | 0 <= p < q < |a|
      ensures !SamePair(a[p], a[q])
    {
      var p' := if p < i then p else p + 1;
      var q' := if q < i then q else q + 1;
      assert a[p] == rows[p'] && a[q] == rows[q'];
    }
  }

  /** A successful drop keeps every counter equal to its course's active rows, and within capacity. */
  lemma DropKeepsCounters(l: Ledger, student: Id, cid: Id, validId: Id -> bool)
    requires UniqueCourseIds(l.courses) && CounterConsistent(l) && WithinCapacity(l)
    requires Drop(l, student, cid, validId).code == 200
    ensures CounterConsistent(Drop(l, student, cid, validId).after)
    ensures WithinCapacity(Drop(l, student, cid, validId).after)
  {
    var i := FindActive(l.rows, student, cid).value;
    var a := Drop(l, student, cid, validId).after;
    assert a.rows == RemoveAt(l.rows, i);
    assert ActiveIn(cid)(l.rows[i]);
    match FindCourse(l.courses, cid)
    case None =>
      forall j | 0 <= j < |a.courses|
        ensures a.courses[j].enrolled == ActiveCount(a.rows, a.courses[j].id)
      {
        ActiveCountRemove(l.rows, i, l.courses[j].id);
      }
    case Some(k) =>
      forall j | 0 <= j < |a.courses|
        ensures a.courses[j].enrolled == ActiveCount(a.rows, a.courses[j].id)
        ensures a.courses[j].enrolled <= a.courses[j].capacity
      {
        ActiveCountRemove(l.rows, i, l.courses[j].id);
        if j != k {
          assert l.courses[j].id != cid;
        }
      }
  }

  /** Drop keeps the ledger invariant, on success and on every failure. */
  lemma DropPreservesInvariant(l: Ledger, student: Id, cid: Id, validId: Id -> bool)
    requires Invariant(l)
    ensures Invariant(Drop(l, student, cid, validId).after)
  {
    var s := Drop(l, student, cid, validId);
    if s.code == 200 {
      DropKeepsCounters(l, student, cid, validId);
      RemovePreservesUniquePairs(l.rows, FindActive(l.rows, student, cid).value);
      assert |s.after.courses| == |l.courses|;
      assert forall j :: 0 <= j < |l.courses| ==> s.after.courses[j].id == l.courses[j].id;
      SameIdsKeepUnique(l.courses, s.after.courses);
    }
  }

  lemma SameIdsKeepUnique(courses: seq<Course>, courses': seq<Course>)
    requires UniqueCourseIds(courses) && |courses'| == |courses|
    requires forall j :: 0 <= j < |courses| ==> courses'[j].id == courses[j].id
    ensures UniqueCourseIds(courses')
  {
  }

  /**
   * Dropping twice in a row: the second drop finds no active row, answers
   * 404 and changes nothing.
   */
  lemma DropTwiceIsNoop(l: Ledger, student: Id, cid: Id, validId: Id -> bool)
    requires UniquePairs(l.rows)
    requires validId(cid)
    ensures var first := Drop(l, student, cid, validId);
            var second := Drop(first.after, student, cid, validId);
            second.code == 404 && second.after == first.after
  {
    var first := Drop(l, student, cid, validId);
    if first.code == 200 {
      var i := FindActive(l.rows, student, cid).value;
      var rows := first.after.rows;
      forall j | 0 <= j < |rows|
        ensures !IsActiveFor(rows[j], student, cid)
      {
        var j' := if j < i then j else j + 1;
        assert rows[j] == l.rows[j'];
        assert j' != i;
        assert !SamePair(l.rows[if j' < i then j' else i], l.rows[if j' < i then i else j']);
      }
    }
  }

  /** The enroll and drop requests a sequence of callers makes. */
  datatype Request =
    | EnrollRequest(student: Id, course: Id, newId: Id, now: Instant)
    | DropRequest(student: Id, course: Id)

  /** The requests applied one after another (no interleaving). */
  function Run(l: Ledger, requests: seq<Request>, validId: Id -> bool): Ledger
    decreases |requests|
  {
    if requests == [] then l
    else
      var next := match requests[0]
        case EnrollRequest(s, c, n, t) => Enroll(l, s, c, n, t, validId).after
        case DropRequest(s, c) => Drop(l, s, c, validId).after;
      Run(next, requests[1..], validId)
  }

  /**
   * Sequentially applied enroll and drop requests keep the counter equal to
   * the number of active rows, at most one row per pair, and every counter
   * within its capacity.
   */
  lemma {:induction false} RunPreservesInvariant(l: Ledger, requests: seq<Request>, validId: Id -> bool)
    requires Invariant(l)
    ensures Invariant(Run(l, requests, validId))
    decreases |requests|
  {
    if requests != [] {
      match requests[0]
      case EnrollRequest(s, c, n, t) =>
        EnrollPreservesInvariant(l, s, c, n, t, validId);
        RunPreservesInvariant(Enroll(l, s, c, n, t, validId).after, requests[1..], validId);
      case DropRequest(s, c) =>
        DropPreservesInvariant(l, s, c, validId);
        RunPreservesInvariant(Drop(l, s, c, validId).after, requests[1..], validId);
    }
  }
}
