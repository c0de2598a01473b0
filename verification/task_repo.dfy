/** The in-memory task store: a map from task id to task record. Each
    operation is one atomic step on an immutable value; the reader/writer lock
    that makes the operations atomic is not modelled. */
module TaskRepo {
  import opened Wrappers
  import opened Domain

  datatype TaskRepository = TaskRepository(tasks: map<Uuid, Task>)

  /** What the state lookup hands back: the state and the creation instant. */
  datatype StateView = StateView(state: TaskState, createdAt: Time)

  const OpGetState := "TaskRepository.GetTaskStateByID"
  const OpGetResult := "TaskRepository.GetTaskResultByID"
  const OpDelete := "TaskRepository.DeleteTask"

  function NewTaskRepository(): (repo: TaskRepository)
    ensures forall id: Uuid :: id !in repo.tasks
  {
    TaskRepository(map[])
  }

  /** `id` may be issued by `CreateTask`: nothing is stored under it yet. */
  predicate Fresh(repo: TaskRepository, id: Uuid)
  {
    id !in repo.tasks
  }

  /** Stores `task` under the freshly drawn `id`, with both timestamps set to
      `now`, and hands `id` back. There is no failure path. */
  function CreateTask(repo: TaskRepository, task: Task, now: Time, id: Uuid): (r: (TaskRepository, Uuid))
    requires Fresh(repo, id)
    ensures r.1 == id && r.1 !in repo.tasks
    ensures r.0.tasks.Keys == repo.tasks.Keys + {id}
    ensures |r.0.tasks| == |repo.tasks| + 1
    ensures forall k | k in repo.tasks :: r.0.tasks[k] == repo.tasks[k]
    ensures var stored := r.0.tasks[id];
      && stored.createdAt == now && stored.updatedAt == now
      && stored.id == task.id && stored.title == task.title
      && stored.description == task.description
      && stored.state == task.state && stored.result == task.result
  {
    (TaskRepository(repo.tasks[id := task.(createdAt := now, updatedAt := now)]), id)
  }

  function GetTaskStateByID(repo: TaskRepository, id: Uuid): (r: Result<StateView, Error>)
    ensures r.Ok? <==> id in repo.tasks
    ensures r.Ok? ==> (r.value.state == repo.tasks[id].state
                       && r.value.createdAt == repo.tasks[id].createdAt)
    ensures r.Err? ==> r.error == Wrapped(OpGetState, ErrTaskNotFound) && Is(r.error, NotFound)
  {
    if id in repo.tasks then
      var task := repo.tasks[id];
      Ok(StateView(task.state, task.createdAt))
    else
      Err(Wrapped(OpGetState, ErrTaskNotFound))
  }

  /** The Go values returned next to the error: the status text and the work
      duration, which are the empty text and zero when the id is absent. */
  function StateReturnValues(r: Result<StateView, Error>): (values: (string, Duration))
    ensures r.Err? ==> values == ("", 0)
    ensures r.Ok? ==> (ParseStatus(values.0) == Some(r.value.state.status)
                       && values.1 == r.value.state.workDuration)
  {
    match r
    case Ok(view) => (StatusName(view.state.status), view.state.workDuration)
    case Err(_) => ("", 0)
  }

  function GetTaskResultByID(repo: TaskRepository, id: Uuid): (r: Result<string, Error>)
    ensures r.Ok? <==> id in repo.tasks
    ensures r.Ok? ==> r.value == repo.tasks[id].result
    ensures r.Err? ==> r.error == Wrapped(OpGetResult, ErrTaskNotFound) && Is(r.error, NotFound)
  {
    if id in repo.tasks then Ok(repo.tasks[id].result)
    else Err(Wrapped(OpGetResult, ErrTaskNotFound))
  }

  /** Removes the task under `id`; an absent id is reported and changes nothing. */
  function DeleteTask(repo: TaskRepository, id: Uuid): (r: (TaskRepository, Option<Error>))
    ensures r.1.None? <==> id in repo.tasks
    ensures r.1.Some? ==> r.0 == repo && r.1.value == Wrapped(OpDelete, ErrTaskNotFound)
                          && Is(r.1.value, NotFound)
    ensures r.1.None? ==> r.0.tasks.Keys == repo.tasks.Keys - {id}
                          && |r.0.tasks| == |repo.tasks| - 1
    ensures forall k | k in r.0.tasks :: k in repo.tasks && r.0.tasks[k] == repo.tasks[k]
  {
    if id !in repo.tasks then (repo, Some(Wrapped(OpDelete, ErrTaskNotFound)))
    else (TaskRepository(repo.tasks - {id}), None)
  }

  // ---------------------------------------------------------------------------
  // Properties relating several operations
  // ---------------------------------------------------------------------------

  /** A new repository holds nothing: every lookup and every delete fails with
      the not-found error. */
  lemma NewRepositoryFindsNothing(id: Uuid)
    ensures GetTaskStateByID(NewTaskRepository(), id).Err?
    ensures GetTaskResultByID(NewTaskRepository(), id).Err?
    ensures DeleteTask(NewTaskRepository(), id).1.Some?
    ensures Is(GetTaskStateByID(NewTaskRepository(), id).error, NotFound)
    ensures Is(GetTaskResultByID(NewTaskRepository(), id).error, NotFound)
    ensures Is(DeleteTask(NewTaskRepository(), id).1.value, NotFound)
  {
  }

  /** Right after a create, both lookups of the new id see the stored task. */
  lemma CreateThenLookup(repo: TaskRepository, task: Task, now: Time, id: Uuid)
    requires Fresh(repo, id)
    ensures var (repo', id') := CreateTask(repo, task, now, id);
      && GetTaskStateByID(repo', id') == Ok(StateView(task.state, now))
      && GetTaskResultByID(repo', id') == Ok(task.result)
  {
  }

  /** Deleting what was just created restores the repository exactly. */
  lemma CreateThenDeleteRestores(repo: TaskRepository, task: Task, now: Time, id: Uuid)
    requires Fresh(repo, id)
    ensures DeleteTask(CreateTask(repo, task, now, id).0, id) == (repo, None)
  {
    var after := CreateTask(repo, task, now, id).0;
    assert after.tasks - {id} == repo.tasks;
  }

  /** After a successful delete the id is gone: lookups and a second delete
      all fail with the not-found error. */
  lemma DeleteThenNotFound(repo: TaskRepository, id: Uuid)
    requires DeleteTask(repo, id).1.None?
    ensures var repo' := DeleteTask(repo, id).0;
      && GetTaskStateByID(repo', id).Err? && Is(GetTaskStateByID(repo', id).error, NotFound)
      && GetTaskResultByID(repo', id).Err? && Is(GetTaskResultByID(repo', id).error, NotFound)
      && DeleteTask(repo', id).1.Some? && Is(DeleteTask(repo', id).1.value, NotFound)
  {
  }

  /** Distinct ids, none of them stored yet. */
  predicate FreshIds(repo: TaskRepository, ids: seq<Uuid>)
  {
    && (forall i | 0 <= i < |ids| :: ids[i] !in repo.tasks)
    && (forall i, j | 0 <= i < j < |ids| :: ids[i] != ids[j])
  }

  /** A series of creates, each with its own freshly drawn id and its own
      reading of the clock, in order: the sequential shape that any
      interleaving of concurrent creates reduces to under the store's
      exclusive lock. No record is lost and none is overwritten. */
  function CreateAll(repo: TaskRepository, tasks: seq<Task>, nows: seq<Time>, ids: seq<Uuid>): (r: TaskRepository)
    requires |ids| == |tasks| && |nows| == |tasks|
    requires FreshIds(repo, ids)
    ensures forall k :: k in r.tasks <==> k in repo.tasks || k in ids
    ensures |r.tasks| == |repo.tasks| + |tasks|
    ensures forall k | k in repo.tasks :: r.tasks[k] == repo.tasks[k]
    ensures forall i | 0 <= i < |ids| ::
      r.tasks[ids[i]] == tasks[i].(createdAt := nows[i], updatedAt := nows[i])
    decreases |tasks|
  {
    if |tasks| == 0 then repo
    else
      var next := CreateTask(repo, tasks[0], nows[0], ids[0]).0;
      FreshIdsTail(repo, next, ids);
      var rest := CreateAll(next, tasks[1..], nows[1..], ids[1..]);
      TailIndexing(ids, tasks, nows);
      rest
  }

  lemma TailIndexing(ids: seq<Uuid>, tasks: seq<Task>, nows: seq<Time>)
    requires |ids| == |tasks| == |nows| > 0
    ensures forall i | 1 <= i < |ids| ::
      ids[1..][i - 1] == ids[i] && tasks[1..][i - 1] == tasks[i] && nows[1..][i - 1] == nows[i]
    ensures forall k :: k in ids <==> k == ids[0] || k in ids[1..]
  {
  }

  lemma FreshIdsTail(repo: TaskRepository, next: TaskRepository, ids: seq<Uuid>)
    requires |ids| > 0 && FreshIds(repo, ids)
    requires next.tasks.Keys == repo.tasks.Keys + {ids[0]}
    ensures FreshIds(next, ids[1..])
  {
  }
}
