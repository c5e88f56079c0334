/**
 * The student's enrolled-courses page
 * (frontend/src/components/Dashboard/EnrolledCourses.jsx): the credit
 * total over the `my-courses` items, the load status and the labels.
 */
module EnrolledCourses {
  import opened Common
  import opened Seqs
  import opened Text
  import opened CourseSchema
  import opened EnrollmentSchema
  import opened EnrollmentQueries

  /** An item's credits: `e.course?.credits || 0`. */
  function CreditsOf(it: MyCourseItem): int {
    if it.course.Some? then it.course.value.credits else 0
  }

  predicate HasCourse(it: MyCourseItem) { it.course.Some? }

  /** The items that render a card: those whose course still exists. */
  function Shown(items: seq<MyCourseItem>): (r: seq<MyCourseItem>)
    ensures IsSubsequence(r, items)
    ensures forall i :: 0 <= i < |r| ==> r[i].course.Some?
    ensures forall i :: 0 <= i < |items| && items[i].course.Some? ==> items[i] in r
  {
    Filter(items, HasCourse)
  }

  /**
   * `totalCredits`: the credits of every item, an item without a course
   * adding 0 — so it equals the credits of the rendered cards alone.
   */
  function TotalCredits(items: seq<MyCourseItem>): (r: int)
    ensures r == Sum(Shown(items), CreditsOf)
  {
    SumFilter(items, CreditsOf, HasCourse);
    Sum(items, CreditsOf)
  }

  /** With every course's credits inside the schema's range, so is the total per card. */
  lemma TotalCreditsBounds(items: seq<MyCourseItem>)
    requires forall i :: 0 <= i < |items| && items[i].course.Some? ==>
               MinCredits <= items[i].course.value.credits <= MaxCredits
    ensures MinCredits * |Shown(items)| <= TotalCredits(items) <= MaxCredits * |Shown(items)|
  {
    var shown := Shown(items);
    forall i | 0 <= i < |shown|
      ensures MinCredits <= CreditsOf(shown[i]) <= MaxCredits
    {
      assert shown[i] in items;
    }
    SumBounds(shown, CreditsOf, MinCredits, MaxCredits);
  }

  const FullTimeCredits := 12

  /** The load status: part-time below twelve credits, full-time from twelve on. */
  function LoadStatus(totalCredits: int): (r: string)
    ensures r == "Part-time" <==> totalCredits < FullTimeCredits
    ensures r == "Full-time" <==> totalCredits >= FullTimeCredits
  {
    if totalCredits < FullTimeCredits then "Part-time" else "Full-time"
  }

  /** The word after the enrolment count: singular exactly for one. */
  function CourseWord(count: nat): (r: string)
    ensures r == "course" <==> count == 1
    ensures r == "courses" <==> count != 1
  {
    "course" + (if count != 1 then "s" else "")
  }

  /** The status badge: the first letter upper-cased, the rest as stored. */
  function StatusLabel(status: string): (r: string)
    ensures |r| == |status|
    ensures status != [] ==> r[0] == UpperChar(status[0]) && r[1..] == status[1..]
  {
    if status == [] then [] else [UpperChar(status[0])] + status[1..]
  }

  /** Every card on the page carries the badge "Enrolled". */
  lemma BadgeIsEnrolled(l: Ledger.Ledger, student: Id, i: nat)
    requires i < |MyCourses(l, student)|
    ensures StatusLabel(StatusName(MyCourses(l, student)[i].row.status)) == "Enrolled"
  {
  }

  /**
   * Counting the whole list but summing only the cards: a student whose
   * courses were all deleted sees a non-zero count and zero credits.
   */
  lemma CountedButNotCredited(items: seq<MyCourseItem>)
    requires items != [] && forall i :: 0 <= i < |items| ==> items[i].course.None?
    ensures TotalCredits(items) == 0 && Shown(items) == []
  {
    FilterNone(items, HasCourse);
  }
}
