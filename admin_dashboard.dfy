/**
 * The admin dashboard's figures (frontend/src/components/Dashboard/AdminDashboard.jsx),
 * computed from the course list the server returns.
 */
module AdminDashboard {
  import opened Common
  import opened Seqs
  import opened CourseSchema
  import L = Ledger
  import Catalogue

  /** `r` is the integer nearest to `num / den`, a half going to the larger one. */
  predicate NearestTo(r: int, num: int, den: int) {
    den * (2 * r - 1) <= 2 * num < den * (2 * r + 1)
  }

  /** `Math.round(num / den)` for a positive `den`: the nearest integer, halves rounded up. */
  function RoundHalfUp(num: int, den: int): (r: int)
    requires den > 0
    ensures NearestTo(r, num, den)
  {
    var r := (2 * num + den) / (2 * den);
    assert 2 * num + den == 2 * den * r + (2 * num + den) % (2 * den);
    r
  }

  datatype Stats = Stats(totalCourses: nat, activeCourses: nat, totalEnrollments: int, avgCapacity: int)

  function Capacity(c: Course): int { c.capacity }

  function Enrolled(c: Course): int { c.enrolled }

  predicate IsActive(c: Course) { c.isActive }

  /**
   * `loadDashboardData`'s figures: the number of courses, the number of
   * active ones, the seats taken over all courses, and the mean capacity
   * rounded to the nearest integer (0 for no courses).
   */
  function DashboardStats(courses: seq<Course>): (r: Stats)
    ensures r.totalCourses == |courses|
    ensures r.activeCourses == |Filter(courses, IsActive)| <= r.totalCourses
    ensures r.totalEnrollments == Sum(courses, Enrolled)
    ensures courses == [] ==> r.avgCapacity == 0
    ensures courses != [] ==> NearestTo(r.avgCapacity, Sum(courses, Capacity), |courses|)
  {
    var totalCapacity := Sum(courses, Capacity);
    Stats(|courses|, |Filter(courses, IsActive)|, Sum(courses, Enrolled),
          if |courses| > 0 then RoundHalfUp(totalCapacity, |courses|) else 0)
  }

  /** `courses.slice(0, 5)`: the first five courses in the order served. */
  function RecentCourses(courses: seq<Course>): (r: seq<Course>)
    ensures |r| == Min(5, |courses|)
    ensures forall i :: 0 <= i < |r| ==> r[i] == courses[i]
  {
    Take(courses, 5)
  }

  /** The unfiltered course list holds only active courses, so both counts agree. */
  lemma ListedCoursesAreAllActive(courses: seq<Course>)
    ensures var stats := DashboardStats(Catalogue.ListCourses(courses, None, None));
            stats.activeCourses == stats.totalCourses
  {
    var listed := Catalogue.ListCourses(courses, None, None);
    FilterAll(listed, IsActive);
  }

  /** While every counter is within capacity, the seats taken do not exceed the seats offered. */
  lemma EnrollmentsWithinCapacity(l: L.Ledger)
    requires L.WithinCapacity(l)
    ensures DashboardStats(l.courses).totalEnrollments <= Sum(l.courses, Capacity)
  {
    SumMonotone(l.courses, Enrolled, Capacity);
  }

  /** While the counters are consistent, the seats taken are the active rows of existing courses. */
  lemma EnrollmentsAreActiveRows(l: L.Ledger)
    requires L.CounterConsistent(l)
    ensures DashboardStats(l.courses).totalEnrollments
         == Sum(l.courses, (c: Course) => L.ActiveCount(l.rows, c.id))
  {
    var rowsOf := (c: Course) => L.ActiveCount(l.rows, c.id);
    SumMonotone(l.courses, Enrolled, rowsOf);
    SumMonotone(l.courses, rowsOf, Enrolled);
  }

  /** Courses the schema accepts have a mean capacity of at least one seat. */
  lemma AverageCapacityAtLeastMinimum(courses: seq<Course>)
    requires courses != []
    requires forall i :: 0 <= i < |courses| ==> ValidCourse(courses[i])
    ensures DashboardStats(courses).avgCapacity >= MinCapacity
  {
    var one := (c: Course) => MinCapacity;
    SumBounds(courses, one, MinCapacity, MinCapacity);
    SumMonotone(courses, one, Capacity);
    NearestIsPositive(DashboardStats(courses).avgCapacity, Sum(courses, Capacity), |courses|);
  }

  /** A mean of at least one seat rounds to at least one. */
  lemma NearestIsPositive(a: int, total: int, n: int)
    requires 0 < n <= total && NearestTo(a, total, n)
    ensures a >= 1
  {
    if a < 1 {
      MultiplyBelow(n, 2 * a + 1, 1);
    }
  }

  lemma MultiplyBelow(n: nat, x: int, y: int)
    requires x <= y
    ensures n * x <= n * y
  {
  }
}
