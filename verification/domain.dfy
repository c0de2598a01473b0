/** The domain layer: task status, the task record, and the errors the other
    layers return, including the way Go wraps them. */
module Domain {
  import opened Wrappers
  import opened GoStrings

  // ---------------------------------------------------------------------------
  // Status
  // ---------------------------------------------------------------------------

  /** The three named task statuses. */
  datatype TaskStatus = Failed | InProgress | Completed

  /** The text each status carries on the wire. Parsing reads it back, so no
      two statuses share a text. */
  function StatusName(s: TaskStatus): (name: string)
    ensures |name| > 0
    ensures ParseStatus(name) == Some(s)
  {
    match s
    case Failed => "failed"
    case InProgress => "in_progress"
    case Completed => "completed"
  }

  /** Reads a wire text back as a status; exactly the three names are accepted. */
  function ParseStatus(name: string): (r: Option<TaskStatus>)
  {
    if name == "failed" then Some(Failed)
    else if name == "in_progress" then Some(InProgress)
    else if name == "completed" then Some(Completed)
    else
      None
  }

  /** Parsing accepts a text only when it is some status's name. */
  lemma ParseStatusAcceptsOnlyNames(name: string)
    ensures ParseStatus(name).Some? <==> exists s: TaskStatus :: StatusName(s) == name
    ensures ParseStatus(name).Some? ==> StatusName(ParseStatus(name).value) == name
  {
    if ParseStatus(name).Some? {
      assert StatusName(ParseStatus(name).value) == name;
    }
  }

  lemma StatusNameInjective(a: TaskStatus, b: TaskStatus)
    requires StatusName(a) == StatusName(b)
    ensures a == b
  {
  }

  // ---------------------------------------------------------------------------
  // Identifiers, time and the task record
  // ---------------------------------------------------------------------------

  /** A 128-bit UUID, as a number. */
  newtype Uuid = x: int | 0 <= x < 0x1_0000_0000_0000_0000_0000_0000_0000_0000

  /** The all-zero UUID, returned where there is no identifier. */
  const NilId: Uuid := 0

  /** An instant, in nanoseconds on the wall clock. */
  type Time = int

  /** An elapsed time in nanoseconds. */
  type Duration = int

  /** Status and elapsed work of a task, read together. */
  datatype TaskState = TaskState(status: TaskStatus, workDuration: Duration)

  datatype Task = Task(
    id: Uuid,
    title: string,
    description: string,
    state: TaskState,
    result: string,
    createdAt: Time,
    updatedAt: Time)

  // ---------------------------------------------------------------------------
  // Errors
  // ---------------------------------------------------------------------------

  /** The sentinel errors the layers compare against. */
  datatype ErrorKind = NotFound | TitleEmpty | TitleTooLong | DescriptionTooLong

  /** A Go error value: a sentinel, wrapped by `fmt.Errorf` with `%w` either
      behind an operation name (`"%s: %w"`) or in front of a note (`"%w, note"`). */
  datatype Error =
    | Sentinel(kind: ErrorKind)
    | Wrapped(op: string, cause: Error)
    | Annotated(cause: Error, note: string)

  /** The text of each sentinel. Only the not-found text is fixed by the domain
      file; the three validation texts stand in for definitions outside the model. */
  function SentinelText(k: ErrorKind): (text: string)
    ensures |text| > 0
  {
    match k
    case NotFound => "task not found"
    case TitleEmpty => "title is empty"
    case TitleTooLong => "title is too long"
    case DescriptionTooLong => "description is too long"
  }

  const ErrTaskNotFound: Error := Sentinel(NotFound)

  /** The text `err.Error()` yields. */
  function Message(e: Error): (m: string)
    // However deeply wrapped, the message still contains the text of the
    // sentinel at the bottom, so a substring test on it finds that sentinel.
    ensures Contains(m, SentinelText(Kind(e)))
  {
    match e
    case Sentinel(k) =>
      assert OccursAt(SentinelText(k), SentinelText(k), 0);
      SentinelText(k)
    case Wrapped(op, c) =>
      ContainsInExtension(op + ": ", Message(c), "", SentinelText(Kind(c)));
      assert op + ": " + Message(c) + "" == op + ": " + Message(c);
      op + ": " + Message(c)
    case Annotated(c, note) =>
      ContainsInExtension("", Message(c), ", " + note, SentinelText(Kind(c)));
      assert "" + Message(c) + (", " + note) == Message(c) + ", " + note;
      Message(c) + ", " + note
  }

  /** The sentinel at the bottom of a chain of wrappers. */
  function Kind(e: Error): (k: ErrorKind)
  {
    match e
    case Sentinel(k) => k
    case Wrapped(_, c) => Kind(c)
    case Annotated(c, _) => Kind(c)
  }

  /** `errors.Is(e, target)` for a sentinel target: unwrap until a sentinel
      equal to the target is met. A wrapper is never equal to a sentinel, so
      every chain matches exactly one sentinel: the one at its bottom. */
  predicate Is(e: Error, target: ErrorKind)
    ensures Is(e, target) <==> Kind(e) == target
  {
    match e
    case Sentinel(k) => k == target
    case Wrapped(_, c) => Is(c, target)
    case Annotated(c, _) => Is(c, target)
  }

  /** The not-found sentinel and the `errors.Is` check agree, and any chain
      rooted in it reports "task not found" in its message. */
  lemma NotFoundIsRecognised(e: Error)
    requires Kind(e) == NotFound
    ensures Is(e, NotFound)
    ensures Contains(Message(e), "task not found")
  {
  }
}
