/**
 * The course-material picker (frontend/src/components/CourseFileUpload.jsx):
 * the checks a chosen file must pass before it can be uploaded.
 */
module CourseFileUpload {
  import opened Common

  /** The chosen file as the browser describes it. */
  datatype SelectedFile = SelectedFile(name: string, size: int, mimeType: string)

  /** The component's `file` and `error` state. */
  datatype Picker = Picker(file: Option<SelectedFile>, error: Option<string>)

  const MaxFileSize := 10 * 1024 * 1024

  /** PDF, Word (old and new format) and PowerPoint (old and new format). */
  const AllowedTypes: seq<string> := [
    "application/pdf",
    "application/msword",
    "application/vnd.openxmlformats-officedocument.wordprocessingml.document",
    "application/vnd.ms-powerpoint",
    "application/vnd.openxmlformats-officedocument.presentationml.presentation"
  ]

  const SizeError := "File must be less than 10MB"
  const TypeError := "Only PDF, Word, and PowerPoint files are allowed"

  predicate Acceptable(f: SelectedFile) {
    f.size <= MaxFileSize && f.mimeType in AllowedTypes
  }

  /**
   * `handleFileChange`: the error is cleared first; no selection clears
   * the file; an oversize file, then a file of another type, sets that
   * error and clears the file; an acceptable file is kept.
   */
  function HandleFileChange(selected: Option<SelectedFile>): (r: Picker)
    ensures r.file.Some? <==> selected.Some? && Acceptable(selected.value)
    ensures r.file.Some? ==> r.file == selected && r.error.None?
    ensures selected.None? ==> r == Picker(None, None)
    ensures selected.Some? && selected.value.size > MaxFileSize ==> r == Picker(None, Some(SizeError))
    ensures selected.Some? && selected.value.size <= MaxFileSize && selected.value.mimeType !in AllowedTypes
            ==> r == Picker(None, Some(TypeError))
    ensures r.file.None? || r.error.None?
  {
    match selected
    case None => Picker(None, None)
    case Some(f) =>
      if f.size > MaxFileSize then Picker(None, Some(SizeError))
      else if f.mimeType !in AllowedTypes then Picker(None, Some(TypeError))
      else Picker(Some(f), None)
  }

  /** `handleUpload`'s guard: the file it sends, or `None` when it returns at once. */
  function UploadedFile(p: Picker): (r: Option<SelectedFile>)
    ensures r.None? <==> p.file.None?
  {
    p.file
  }

  /** Whatever is picked, an upload only ever sends a file that passed both checks. */
  lemma UploadOnlyAcceptable(selected: Option<SelectedFile>)
    ensures var sent := UploadedFile(HandleFileChange(selected));
            sent.Some? ==> sent == selected && Acceptable(sent.value)
  {
  }

  /** A file of exactly ten mebibytes of an allowed type is accepted. */
  lemma LimitIsInclusive(name: string, mimeType: string)
    requires mimeType in AllowedTypes
    ensures HandleFileChange(Some(SelectedFile(name, MaxFileSize, mimeType))).file.Some?
  {
  }

  /** The size check comes first: an oversize file of another type reports the size. */
  lemma SizeReportedBeforeType(f: SelectedFile)
    requires f.size > MaxFileSize && f.mimeType !in AllowedTypes
    ensures HandleFileChange(Some(f)).error == Some(SizeError)
  {
  }
}
