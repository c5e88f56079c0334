/**
 * The admin course form (frontend/src/components/Admin/CourseManagement.jsx):
 * its default value, the list edits on days and prerequisites, the form
 * loaded for editing, and the payload it submits.
 */
module CourseForm {
  import opened Common
  import opened Seqs
  import opened Text
  import opened CourseSchema

  /** `s.filter(v => v !== x)`: every `x` removed, the rest kept in order. */
  function Without(s: seq<string>, x: string): (r: seq<string>)
    ensures x !in r
    ensures IsSubsequence(r, s)
    ensures forall v :: v in s && v != x ==> v in r
    ensures Distinct(s) ==> Distinct(r)
  {
    FilterDistinct(s, (v: string) => v != x);
    Filter(s, (v: string) => v != x)
  }

  /** Removing a value that is absent changes nothing. */
  lemma WithoutAbsent(s: seq<string>, x: string)
    requires x !in s
    ensures Without(s, x) == s
  {
    FilterAll(s, (v: string) => v != x);
  }

  /** Removing a value appended to a list that lacks it restores the list. */
  lemma WithoutAppended(s: seq<string>, x: string)
    requires x !in s
    ensures Without(s + [x], x) == s
  {
    var p := (v: string) => v != x;
    FilterAppend(s, [x], p);
    WithoutAbsent(s, x);
    assert Filter([x], p) == [];
  }

  /** `handleDayToggle(day)`: a listed day is removed everywhere, an unlisted one appended. */
  function ToggleDay(days: seq<string>, day: string): (r: seq<string>)
    ensures day in r <==> day !in days
    ensures day in days ==> r == Without(days, day)
    ensures day !in days ==> r == days + [day]
  {
    if day in days then Without(days, day) else days + [day]
  }

  /** Toggling an unlisted day twice gives back the original list. */
  lemma ToggleTwice(days: seq<string>, day: string)
    requires day !in days
    ensures ToggleDay(ToggleDay(days, day), day) == days
  {
    WithoutAppended(days, day);
  }

  /** The prerequisite list and the text typed in its input box. */
  datatype PrerequisiteEdit = PrerequisiteEdit(prerequisites: seq<string>, input: string)

  /**
   * `addPrerequisite` as written: the duplicate test looks for the trimmed
   * input, but what is appended is the trimmed input upper-cased.
   */
  function AddPrerequisiteAsWritten(prerequisites: seq<string>, input: string): (r: PrerequisiteEdit)
    ensures Trim(input) == [] || Trim(input) in prerequisites ==> r == PrerequisiteEdit(prerequisites, input)
    ensures Trim(input) != [] && Trim(input) !in prerequisites ==>
      r == PrerequisiteEdit(prerequisites + [ToUpper(Trim(input))], [])
  {
    var code := Trim(input);
    if code != [] && code !in prerequisites then PrerequisiteEdit(prerequisites + [ToUpper(code)], [])
    else PrerequisiteEdit(prerequisites, input)
  }

  /** A lower-case entry of a listed code is appended a second time. */
  lemma AsWrittenAddsDuplicate()
    ensures AddPrerequisiteAsWritten(["CS100"], "cs100").prerequisites == ["CS100", "CS100"]
    ensures !Distinct(AddPrerequisiteAsWritten(["CS100"], "cs100").prerequisites)
  {
    TrimLowerCode();
    UpperLowerCode();
    assert "cs100"[0] != "CS100"[0];
    var r := AddPrerequisiteAsWritten(["CS100"], "cs100").prerequisites;
    assert r[0] == r[1];
  }

  lemma TrimLowerCode()
    ensures Trim("cs100") == "cs100"
  {
    assert !IsWhitespace("cs100"[0]) && !IsWhitespace("cs100"[4]);
    TrimUnpadded("cs100");
  }

  lemma UpperLowerCode()
    ensures ToUpper("cs100") == "CS100"
  {
    var u := ToUpper("cs100");
    assert u[0] == 'C' && u[1] == 'S' && u[2] == '1' && u[3] == '0' && u[4] == '0';
  }

  /**
   * `addPrerequisite` with the duplicate test on the code that is added:
   * blank input is ignored; otherwise the trimmed, upper-cased code is
   * appended unless already listed, and the input is cleared only when
   * it is appended. The list never gains a duplicate.
   */
  function AddPrerequisite(prerequisites: seq<string>, input: string): (r: PrerequisiteEdit)
    ensures Trim(input) == [] ==> r == PrerequisiteEdit(prerequisites, input)
    ensures Trim(input) != [] && ToUpper(Trim(input)) in prerequisites ==>
      r == PrerequisiteEdit(prerequisites, input)
    ensures Trim(input) != [] && ToUpper(Trim(input)) !in prerequisites ==>
      r == PrerequisiteEdit(prerequisites + [ToUpper(Trim(input))], [])
    ensures Distinct(prerequisites) ==> Distinct(r.prerequisites)
    ensures |r.prerequisites| > |prerequisites| ==> IsUpperCase(r.prerequisites[|prerequisites|])
  {
    var code := ToUpper(Trim(input));
    if Trim(input) != [] && code !in prerequisites then PrerequisiteEdit(prerequisites + [code], [])
    else PrerequisiteEdit(prerequisites, input)
  }

  /** `removePrerequisite(p)`: every entry equal to `p` removed, the rest kept in order. */
  function RemovePrerequisite(prerequisites: seq<string>, p: string): (r: seq<string>)
    ensures p !in r && IsSubsequence(r, prerequisites)
    ensures forall v :: v in prerequisites && v != p ==> v in r
    ensures Distinct(prerequisites) ==> Distinct(r)
  {
    Without(prerequisites, p)
  }

  /** Removing the code just added gives back the list before the addition. */
  lemma RemoveAfterAdd(prerequisites: seq<string>, input: string)
    requires Trim(input) != [] && ToUpper(Trim(input)) !in prerequisites
    ensures RemovePrerequisite(AddPrerequisite(prerequisites, input).prerequisites, ToUpper(Trim(input))) == prerequisites
  {
    WithoutAppended(prerequisites, ToUpper(Trim(input)));
  }

  /**
   * The form's value. The number inputs hold `parseInt` of the typed text
   * (`None` stands for NaN); the initial value and `resetForm` put numbers
   * there directly.
   */
  datatype FormData = FormData(
    courseCode: string, title: string, description: string, credits: Option<int>,
    department: string, instructor: string, schedule: Schedule, capacity: Option<int>,
    prerequisites: seq<string>, semester: string, year: Option<int>, isActive: bool)

  /** The initial and reset form for the current `year`, with the given semester. */
  function BlankForm(semester: string, year: int): FormData {
    FormData("", "", "", Some(3), "", "", Schedule([], "", ""), Some(30), [], semester, Some(year), true)
  }

  /** The initial and `resetForm` value as written: semester `'even'`. */
  function DefaultFormAsWritten(year: int): FormData {
    BlankForm("even", year)
  }

  /** The initial and `resetForm` value with the schema's spelling `'Even'`. */
  function DefaultForm(year: int): FormData {
    BlankForm("Even", year)
  }

  /** `handleEdit(course)`: the form loaded with the course's editable fields. */
  function EditForm(c: Course): FormData {
    FormData(c.courseCode, c.title, c.description, Some(c.credits), c.department, c.instructor,
             c.schedule, Some(c.capacity), c.prerequisites, c.semester, Some(c.year), c.isActive)
  }

  /**
   * The submitted payload: every field of the form, the numbers passed
   * through `Number` (a NaN is sent as no value), and never `enrolled`.
   */
  function Payload(f: FormData): (r: CourseBody)
    ensures r.enrolled.None?
    ensures r.credits == f.credits && r.capacity == f.capacity && r.year == f.year
    ensures r.schedule == Some(ScheduleBody(Some(f.schedule.days), Some(f.schedule.time), Some(f.schedule.room)))
    ensures r.semester == Some(f.semester) && r.courseCode == Some(f.courseCode)
  {
    CourseBody(
      Some(f.courseCode), Some(f.title), Some(f.description), f.credits,
      Some(f.department), Some(f.instructor),
      Some(ScheduleBody(Some(f.schedule.days), Some(f.schedule.time), Some(f.schedule.room))),
      f.capacity, None, Some(f.prerequisites), Some(f.semester), f.year, Some(f.isActive))
  }

  /**
   * Whatever else is filled in, a form still carrying the default semester
   * as written is refused both by create (a validation error) and by
   * update (its given fields are not all valid).
   */
  lemma DefaultSemesterRejected(f: FormData, year: int, id: Id)
    requires f.semester == DefaultFormAsWritten(year).semester
    ensures CourseFromBody(id, Payload(f)).None?
    ensures !GivenFieldsValid(Payload(f))
  {
    assert "even" != SemesterValues[0] && "even" != SemesterValues[1];
  }

  /**
   * The default form, once its text fields are filled in, creates an
   * active course with no students, three credits and thirty seats.
   */
  lemma DefaultFormCreates(year: int, id: Id, code: string, title: string, description: string,
                           department: string, instructor: string, time: string, room: string)
    requires Present(code) && Present(title) && Present(description) && Present(department)
    requires Present(instructor) && Present(time) && Present(room)
    ensures var f := DefaultForm(year).(courseCode := code, title := title, description := description,
                                        department := department, instructor := instructor,
                                        schedule := Schedule([], time, room));
            && CourseFromBody(id, Payload(f)).Some?
            && var c := CourseFromBody(id, Payload(f)).value;
               c.enrolled == 0 && c.isActive && c.credits == 3 && c.capacity == 30 && c.semester == "Even"
  {
  }

  /** Submitting the edit form of a valid course unchanged leaves the course unchanged. */
  lemma EditRoundTrip(c: Course)
    requires ValidCourse(c)
    ensures GivenFieldsValid(Payload(EditForm(c)))
    ensures ApplyBody(c, Payload(EditForm(c))) == c
  {
    ToUpperOfUpper(c.courseCode);
  }
}
