/** The task service: validates a new task, sets its initial state, and passes
    every other request through to the store, wrapping the store's error with
    the service's operation name. */
module TaskUsecase {
  import opened Wrappers
  import opened Domain
  import opened GoStrings
  import TaskRepo

  const MaxTitleRunes := 255
  const MaxDescriptionRunes := 1000

  const OpCreate := "TaskUsecase.CreateTask"
  const OpGetState := "TaskUsecase.GetTaskStateByID"
  const OpGetResult := "TaskUsecase.GetTaskResultByID"
  const OpDelete := "TaskUsecase.DeleteTask"

  /** `utf8.RuneCountInString`: a Dafny string is a sequence of Unicode scalar
      values, so its length is its number of code points. */
  function RuneCount(s: string): (n: nat)
  {
    |s|
  }

  /** The domain rules a task must meet before it may be stored. */
  predicate Acceptable(task: Task)
  {
    && task.title != ""
    && RuneCount(task.title) <= MaxTitleRunes
    && RuneCount(task.description) <= MaxDescriptionRunes
  }

  /** The rules are checked in order (empty title, long title, long
      description), and the first one broken is reported. */
  function ValidateTask(task: Task): (r: Option<Error>)
    ensures r.None? <==> Acceptable(task)
    ensures task.title == "" ==> r == Some(Sentinel(TitleEmpty))
    ensures task.title != "" && RuneCount(task.title) > MaxTitleRunes ==>
      r.Some? && Is(r.value, TitleTooLong)
    ensures task.title != "" && RuneCount(task.title) <= MaxTitleRunes
            && RuneCount(task.description) > MaxDescriptionRunes ==>
      r.Some? && Is(r.value, DescriptionTooLong)
  {
    if task.title == "" then Some(Sentinel(TitleEmpty))
    else if RuneCount(task.title) > MaxTitleRunes then
      Some(Annotated(Sentinel(TitleTooLong), "maximum 255 characters"))
    else if RuneCount(task.description) > MaxDescriptionRunes then
      Some(Annotated(Sentinel(DescriptionTooLong), "maximum 1000 characters"))
    else None
  }

  /** The outcome of a create: the store afterwards, the id returned (the nil
      id on failure) and the error, if any. */
  datatype CreateReply = CreateReply(repo: TaskRepo.TaskRepository, id: Uuid, err: Option<Error>)

  /** `id` stands for the draw of `uuid.New()`, a version-4 UUID, which is
      never the nil id and is assumed not to collide with a stored one. */
  predicate Issuable(repo: TaskRepo.TaskRepository, id: Uuid)
  {
    id != NilId && TaskRepo.Fresh(repo, id)
  }

  function CreateTask(repo: TaskRepo.TaskRepository, task: Task, now: Time, id: Uuid): (r: CreateReply)
    requires Issuable(repo, id)
    ensures r.err.None? <==> Acceptable(task)
    ensures r.err.None? <==> r.id != NilId
    ensures r.err.Some? ==> r.repo == repo
                            && r.err.value == Wrapped(OpCreate, ValidateTask(task).value)
    ensures r.err.None? ==> (
      && r.id == id && id !in repo.tasks
      && r.repo.tasks.Keys == repo.tasks.Keys + {id}
      && (forall k | k in repo.tasks :: r.repo.tasks[k] == repo.tasks[k])
      && r.repo.tasks[id]
         == task.(state := TaskState(InProgress, 0), createdAt := now, updatedAt := now))
  {
    match ValidateTask(task)
    case Some(e) => CreateReply(repo, NilId, Some(Wrapped(OpCreate, e)))
    case None =>
      var initial := task.(state := TaskState(InProgress, 0));
      var (repo', id') := TaskRepo.CreateTask(repo, initial, now, id);
      CreateReply(repo', id', None)
  }

  function GetTaskStateByID(repo: TaskRepo.TaskRepository, id: Uuid): (r: Result<TaskRepo.StateView, Error>)
    ensures r.Ok? <==> id in repo.tasks
    ensures r.Ok? ==> r == TaskRepo.GetTaskStateByID(repo, id)
    ensures r.Err? ==> r.error == Wrapped(OpGetState, TaskRepo.GetTaskStateByID(repo, id).error)
    ensures r.Err? ==> Is(r.error, NotFound) && Contains(Message(r.error), "task not found")
  {
    match TaskRepo.GetTaskStateByID(repo, id)
    case Ok(view) => Ok(view)
    case Err(e) =>
      var wrapped := Wrapped(OpGetState, e);
      NotFoundIsRecognised(wrapped);
      Err(wrapped)
  }

  function GetTaskResultByID(repo: TaskRepo.TaskRepository, id: Uuid): (r: Result<string, Error>)
    ensures r.Ok? <==> id in repo.tasks
    ensures r.Ok? ==> r == TaskRepo.GetTaskResultByID(repo, id)
    ensures r.Err? ==> r.error == Wrapped(OpGetResult, TaskRepo.GetTaskResultByID(repo, id).error)
    ensures r.Err? ==> Is(r.error, NotFound) && Contains(Message(r.error), "task not found")
  {
    match TaskRepo.GetTaskResultByID(repo, id)
    case Ok(result) => Ok(result)
    case Err(e) =>
      var wrapped := Wrapped(OpGetResult, e);
      NotFoundIsRecognised(wrapped);
      Err(wrapped)
  }

  function DeleteTask(repo: TaskRepo.TaskRepository, id: Uuid): (r: (TaskRepo.TaskRepository, Option<Error>))
    ensures r.0 == TaskRepo.DeleteTask(repo, id).0
    ensures r.1.None? <==> id in repo.tasks
    ensures r.1.Some? ==> r.1.value == Wrapped(OpDelete, TaskRepo.DeleteTask(repo, id).1.value)
    ensures r.1.Some? ==> Is(r.1.value, NotFound) && Contains(Message(r.1.value), "task not found")
  {
    var (repo', err) := TaskRepo.DeleteTask(repo, id);
    match err
    case None => (repo', None)
    case Some(e) =>
      var wrapped := Wrapped(OpDelete, e);
      NotFoundIsRecognised(wrapped);
      (repo', Some(wrapped))
  }

  // ---------------------------------------------------------------------------
  // Properties relating several operations
  // ---------------------------------------------------------------------------

  /** What the service keeps true of every task it has stored: the domain
      rules hold and the state is still the initial one, since nothing
      updates a stored task. */
  predicate ServiceInvariant(repo: TaskRepo.TaskRepository)
  {
    forall k | k in repo.tasks ::
      Acceptable(repo.tasks[k]) && repo.tasks[k].state == TaskState(InProgress, 0)
  }

  lemma NewRepositoryKeepsInvariant()
    ensures ServiceInvariant(TaskRepo.NewTaskRepository())
  {
  }

  /** Create and delete both keep the invariant; the lookups change nothing. */
  lemma CreateKeepsInvariant(repo: TaskRepo.TaskRepository, task: Task, now: Time, id: Uuid)
    requires Issuable(repo, id) && ServiceInvariant(repo)
    ensures ServiceInvariant(CreateTask(repo, task, now, id).repo)
  {
  }

  lemma DeleteKeepsInvariant(repo: TaskRepo.TaskRepository, id: Uuid)
    requires ServiceInvariant(repo)
    ensures ServiceInvariant(DeleteTask(repo, id).0)
  {
  }

  /** Whatever state the caller put in the task, a state lookup right after a
      successful create reports `in_progress`, no work done, and the creation
      instant. */
  lemma CreateThenStateInProgress(repo: TaskRepo.TaskRepository, task: Task, now: Time, id: Uuid)
    requires Issuable(repo, id) && Acceptable(task)
    ensures var r := CreateTask(repo, task, now, id);
      && GetTaskStateByID(r.repo, r.id) == Ok(TaskRepo.StateView(TaskState(InProgress, 0), now))
      && GetTaskResultByID(r.repo, r.id) == Ok(task.result)
  {
  }

  /** The whole life of one task on a new store: create, read its state and
      its (empty) result, delete it, and find it gone. */
  lemma Lifecycle(title: string, description: string, now: Time, id: Uuid)
    requires id != NilId
    requires 0 < |title| <= MaxTitleRunes && |description| <= MaxDescriptionRunes
    ensures
      var task := Task(NilId, title, description, TaskState(Completed, 0), "", 0, 0);
      var created := CreateTask(TaskRepo.NewTaskRepository(), task, now, id);
      var deleted := DeleteTask(created.repo, created.id);
      && created.err.None? && created.id == id
      && GetTaskStateByID(created.repo, id).Ok?
      && GetTaskStateByID(created.repo, id).value.state.status == InProgress
      && GetTaskResultByID(created.repo, id) == Ok("")
      && deleted.1.None?
      && GetTaskStateByID(deleted.0, id).Err?
      && Is(GetTaskStateByID(deleted.0, id).error, NotFound)
  {
  }
}
