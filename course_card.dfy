/**
 * The course card (frontend/src/components/Courses/CourseCard.jsx): its
 * seat arithmetic and which action buttons it offers.
 */
module CourseCard {
  import opened Common
  import opened CourseSchema
  import CourseList

  /**
   * What a card shows: the free seats, whether the course counts as full,
   * the enroll button (`Some(disabled)` when offered) and whether the drop
   * button is offered.
   */
  datatype Card = Card(availableSeats: int, isFull: bool, enrollButton: Option<bool>, dropButton: bool)

  /**
   * `CourseCard({course, onEnroll, onDrop, enrolled})`: nothing without a
   * course; otherwise the seats left (the same figure as the stored
   * course's `availableSeats`), full as soon as none are left, an enroll
   * button, disabled when full, when a handler is given and the course is
   * not already taken, and a drop button when it is taken and a handler
   * is given.
   */
  function Render(course: Option<Course>, hasOnEnroll: bool, hasOnDrop: bool, enrolled: bool): (r: Option<Card>)
    ensures r.None? <==> course.None?
    ensures r.Some? ==> r.value.availableSeats == AvailableSeats(course.value)
    ensures r.Some? ==> (r.value.isFull <==> course.value.enrolled >= course.value.capacity)
    ensures r.Some? ==> (r.value.enrollButton.Some? <==> hasOnEnroll && !enrolled)
    ensures r.Some? && r.value.enrollButton.Some? ==> r.value.enrollButton.value == r.value.isFull
    ensures r.Some? ==> (r.value.dropButton <==> enrolled && hasOnDrop)
  {
    match course
    case None => None
    case Some(c) =>
      var availableSeats := c.capacity - c.enrolled;
      var isFull := availableSeats <= 0;
      Some(Card(availableSeats, isFull, if hasOnEnroll && !enrolled then Some(isFull) else None,
                enrolled && hasOnDrop))
  }

  /** A card never offers both enrolling and dropping. */
  lemma NeverBothActions(course: Option<Course>, hasOnEnroll: bool, hasOnDrop: bool, enrolled: bool)
    requires Render(course, hasOnEnroll, hasOnDrop, enrolled).Some?
    ensures !(Render(course, hasOnEnroll, hasOnDrop, enrolled).value.enrollButton.Some?
              && Render(course, hasOnEnroll, hasOnDrop, enrolled).value.dropButton)
  {
  }

  /**
   * The card's enroll button is disabled exactly when the course list's
   * button for the same course is, while no request is in flight.
   */
  lemma CardAgreesWithList(c: Course, enrolling: map<Id, bool>)
    requires c.id !in enrolling || !enrolling[c.id]
    ensures Render(Some(c), true, false, false).value.enrollButton == Some(CourseList.EnrollDisabled(c, enrolling))
  {
  }
}
