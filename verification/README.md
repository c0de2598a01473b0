# Task manager: a Dafny model of the task store and task service

This project models the core of a small task-tracking service written in Go. It covers four pieces:

- the in-memory task store, a map from task id to task record;
- the task service in front of the store, which validates a new task, sets its initial state and passes the other requests through;
- the domain types (task status, task record, the not-found error) and the way Go wraps errors with `fmt.Errorf("…%w…")` and tests them with `errors.Is`;
- the pure helper that shortens a Go handler name for log lines.

Each store operation is a pure function over an immutable `TaskRepository` value. An operation that changes the store returns the new store next to its result. A lookup returns only its result, so a lookup cannot change the store.

Files:

- `wrappers.dfy`: `Option` and `Result`.
- `go_strings.dfy`: the parts of Go's `strings` package the other modules reason with: substring occurrence, `Contains` and `HasSuffix`.
- `domain.dfy`: status, task record, error chain and message containment.
- `task_repo.dfy`: the store.
- `task_usecase.dfy`: the service.
- `handler_name.dfy`: `getPackageAndHandlerName` and the Go string functions it uses.

## Reading of the source

The source files do not fit together as written. The model follows one consistent reading:

- The store's `CreateTask` (`task_repo.go:26-35`) returns nothing and discards the `uuid.New()` it inserts under. The service interface (`task_usecase.go:17`), the service itself (`task_usecase.go:40`) and the tests (`handlers_test.go:201`) all expect the new id back. The model follows the interface: `TaskRepo.CreateTask` returns the key it inserted under.
- The store's state lookup returns `(status, duration, error)` (`task_repo.go:37`). The interface expects `(TaskState, time.Time, error)`. The model uses the interface's shape:
  - a `TaskState(status, workDuration)` pair;
  - the creation instant;
  - a `Result` carrying either that view or the error.
- `domain.TaskState`, `ErrTitleEmpty`, `ErrTitleTooLong` and `ErrDescriptionTooLong` are used but are not defined in `task.go`. `TaskState` follows its use in the service and in the tests. The validation sentinels become kinds of `Domain.ErrorKind`.
- The store never checks the drawn id for a collision (`task_repo.go:34`). The model states freshness as a precondition: the id passed in for `uuid.New()` is not a key of the map. The service also requires that id to be non-nil, because a version-4 UUID never is. This precondition states that the drawn id does not collide with a stored one. An id issued earlier and since deleted may be drawn again.

## Model

| member | source | states |
|---|---|---|
| Domain.StatusName | internal/domain/task.go:13-15 | every status has a non-empty wire name, and parsing that name gives the status back |
| Domain.ParseStatusAcceptsOnlyNames | internal/domain/task.go:10-16 | a text is accepted exactly when it is some status's wire name, and the status parsed back carries that name |
| Domain.StatusNameInjective | internal/domain/task.go:13-15 | two statuses with the same wire name are the same status |
| Domain.Is | internal/adapters/http-adapter/handlers/createTask_handler.go:50 | `errors.Is` through any chain of wrappers matches exactly the sentinel at its bottom and no other |
| Domain.Message | internal/infrastructure/repo/inmemory/task_repo.go:44 | however many `op: ` prefixes (`"%s: %w"`, as here) or `, note` suffixes (`"%w, maximum … characters"`, as in task_usecase.go:49-52) wrap an error, its message still contains the text of the sentinel at the bottom |
| Domain.NotFoundIsRecognised | internal/domain/task.go:29-31 | an error rooted in the not-found sentinel is recognised by `errors.Is` and its message contains "task not found" |
| TaskRepo.NewTaskRepository | internal/infrastructure/repo/inmemory/task_repo.go:19-24 | a new repository holds no id |
| TaskRepo.CreateTask | internal/infrastructure/repo/inmemory/task_repo.go:26-35 | the id returned was not present before and is now the only new key; every older entry is unchanged; the stored task has both timestamps equal to `now` and all other fields as given; the store grows by one; there is no error path |
| TaskRepo.GetTaskStateByID | internal/infrastructure/repo/inmemory/task_repo.go:37-47 | it succeeds exactly when the id is stored, and then returns that task's state and creation instant; otherwise it returns the not-found error wrapped with the store's operation name |
| TaskRepo.StateReturnValues | internal/infrastructure/repo/inmemory/task_repo.go:44-46 | a failed lookup returns the empty status text and zero duration next to its error; a successful one returns the stored status's text, which parses back to that status, and the stored work duration |
| TaskRepo.GetTaskResultByID | internal/infrastructure/repo/inmemory/task_repo.go:49-59 | it succeeds exactly when the id is stored, and then returns the stored result, which may be empty; otherwise it returns the wrapped not-found error |
| TaskRepo.DeleteTask | internal/infrastructure/repo/inmemory/task_repo.go:61-72 | on an absent id it reports not-found and leaves the store as it was; on a present id it removes that key and no other, and leaves every remaining entry unchanged |
| TaskRepo.NewRepositoryFindsNothing | internal/infrastructure/repo/inmemory/task_repo.go:19-24 | on a new repository, every state lookup, result lookup and delete fails with not-found |
| TaskRepo.CreateThenLookup | internal/adapters/http-adapter/handlers/handlers_test.go:187-216 | right after a create, the state lookup of the returned id gives the stored state and the creation instant `now`, and the result lookup gives the stored result |
| TaskRepo.CreateThenDeleteRestores | internal/infrastructure/repo/inmemory/task_repo.go:26-72 | deleting the id a create just returned succeeds and restores the repository exactly |
| TaskRepo.DeleteThenNotFound | internal/adapters/http-adapter/handlers/handlers_test.go:355-358 | after a successful delete, both lookups of that id and a second delete all fail with not-found |
| TaskRepo.CreateAll | internal/infrastructure/repo/inmemory/task_repo.go:26-35 | creates with distinct fresh ids and their own clock readings, applied one after another as the exclusive lock orders them, lose no record and overwrite none: the store grows by their number, every old entry is kept, and each id maps to its own task stamped with its own reading |
| TaskUsecase.ValidateTask | internal/usecase/task_usecase.go:44-55 | validation passes exactly when the title is non-empty, the title has at most 255 code points and the description has at most 1000. An empty title is reported as title-empty before any length rule. A title that is too long is reported before the description is looked at |
| TaskUsecase.CreateTask | internal/usecase/task_usecase.go:27-42 | on a validation failure it returns the nil id and the wrapped validation error, and the store is untouched. On success it returns the fresh, non-nil id and adds only that key. The stored record is the submitted task, with the state forced to `in_progress` and zero work duration whatever the caller gave, and both timestamps set to `now`. Every other field is kept |
| TaskUsecase.GetTaskStateByID | internal/usecase/task_usecase.go:57-65 | it succeeds exactly when the store's lookup does, and then gives the same value; a failure is the store's error wrapped with the service's operation name, still recognised as not-found and still mentioning "task not found" |
| TaskUsecase.GetTaskResultByID | internal/usecase/task_usecase.go:67-75 | as for the state lookup, for the result |
| TaskUsecase.DeleteTask | internal/usecase/task_usecase.go:77-85 | the store afterwards is exactly the store's own delete outcome; a failure is the store's error wrapped with the service's operation name and is still not-found |
| TaskUsecase.NewRepositoryKeepsInvariant | internal/infrastructure/repo/inmemory/task_repo.go:19-24 | the empty store satisfies the service invariant: every stored task meets the domain rules and is still `in_progress` with zero duration |
| TaskUsecase.CreateKeepsInvariant | internal/usecase/task_usecase.go:27-42 | a service create, successful or not, keeps that invariant |
| TaskUsecase.DeleteKeepsInvariant | internal/usecase/task_usecase.go:77-85 | a service delete keeps that invariant |
| TaskUsecase.CreateThenStateInProgress | internal/adapters/http-adapter/handlers/handlers_test.go:430-440 | right after a successful service create, the state lookup reports `in_progress`, zero duration and the creation instant, and the result lookup gives the task's result |
| TaskUsecase.Lifecycle | internal/adapters/http-adapter/handlers/handlers_test.go:401-472 | on a new store, a task with a valid title and description is created under the drawn id. The HTTP test submits the zero status `""`, which the three-valued status type cannot hold, so the lemma submits `completed` instead. Either way the stored state reads `in_progress`, so the submitted status is overwritten. Its result reads empty. Deleting it succeeds, and a later state lookup fails with not-found |
| HandlerName.TrimSuffix | internal/adapters/http-adapter/handlers/middleware/logging_middleware.go:38 | when the text ends with the suffix, the result followed by the suffix is the text; otherwise the text is unchanged |
| HandlerName.TrimSuffixRoundTrip | internal/adapters/http-adapter/handlers/middleware/logging_middleware.go:38 | trimming a suffix that was just appended gives back the original text, so only one copy is removed |
| HandlerName.Split | internal/adapters/http-adapter/handlers/middleware/logging_middleware.go:39 | splitting always yields at least one part, and no part contains the separator |
| HandlerName.JoinSplit | internal/adapters/http-adapter/handlers/middleware/logging_middleware.go:39 | joining the parts of a split with the separator gives back the input |
| HandlerName.SplitJoin | internal/adapters/http-adapter/handlers/middleware/logging_middleware.go:39 | splitting a join of separator-free parts gives back those parts |
| HandlerName.DeleteAll | internal/adapters/http-adapter/handlers/middleware/logging_middleware.go:41 | deleting every occurrence of the pattern only removes characters: the result is a subsequence of its input, so never longer; a text that does not contain the pattern comes back unchanged, and a text that does contain it (for a non-empty pattern) loses at least the pattern's length |
| HandlerName.DeleteAllAtFirstMatch | internal/adapters/http-adapter/handlers/middleware/logging_middleware.go:41 | at the leftmost match of a non-empty pattern, the text before it is kept, the match is dropped, and deletion carries on after it, as the `Index` loop of `strings.Replace` does. With the no-match case this fixes the result of deleting every occurrence |
| HandlerName.DeletionIsSinglePass | internal/adapters/http-adapter/handlers/middleware/logging_middleware.go:41 | deletion is one left-to-right pass: a marker that only forms once an inner marker is removed is kept |
| HandlerName.PackageAndHandlerName | internal/adapters/http-adapter/handlers/middleware/logging_middleware.go:37-43 | the function is total; its output contains no `/`, is never longer than the input, and uses no character the input lacks |
| HandlerName.PlainNameUnchanged | internal/adapters/http-adapter/handlers/middleware/logging_middleware.go:37-43 | a name with no `/`, no `-fm` ending and no `.(*Handler)` is returned unchanged |
| HandlerName.MethodValueName | internal/adapters/http-adapter/handlers/middleware/logging_middleware.go:36-43 | a method-value name `dir/pkg.(*Handler)handler-fm` shortens to `pkg` followed by `handler` |
| HandlerName.DocumentedExample | internal/adapters/http-adapter/handlers/middleware/logging_middleware.go:36 | the documented name `github.com/Util787/taskmanager/internal/handlers.(*Handler).createTask-fm` becomes `handlers.createTask` |
| HandlerName.SuffixTrimmedOnce | internal/adapters/http-adapter/handlers/middleware/logging_middleware.go:38 | of two trailing `-fm` only the last is removed |
| HandlerName.SuffixOnlyAtEnd | internal/adapters/http-adapter/handlers/middleware/logging_middleware.go:38-40 | a `-fm` that is not at the very end of the name is kept: `a/run-fmx` shortens to `run-fmx` |
| HandlerName.ShortLastPart | internal/adapters/http-adapter/handlers/middleware/logging_middleware.go:37-43 | a name not ending in `-fm` whose last path element is shorter than `.(*Handler)` shortens to that element |

## Left out

- Locking: the reader/writer mutex of the store is not modelled. Each operation is one atomic step on an immutable value. Concurrency itself is not modelled either. `TaskRepo.CreateAll` covers only the sequential order that the exclusive lock imposes on concurrent creates.
- Time: `time.Now()` is passed in as the parameter `now`. Instants and durations are unbounded integers of nanoseconds. The only duration the code ever sets is 0, so 64-bit overflow cannot arise.
- Id generation: `uuid.New()` is passed in as the parameter `id`, with freshness as a precondition. Freshness only excludes the ids stored now. The model does not record which ids were ever issued, so it does not promise that an id issued and then deleted is never drawn again. Random version-4 UUIDs make such a repeat practically impossible. `uuid.Parse` and the UUID text format belong to a library outside this model.
- Aliasing: Go stores the caller's `*Task`, so the caller later sees `CreatedAt` set. The model has value semantics, and the stored copy is what the lookups read.
- `Task.ID` is never assigned by the source. The model stores the task's `id` field exactly as given.
- Zero values next to errors: the store's state lookup returns the empty status and zero duration with its error, and `TaskRepo.StateReturnValues` models that. The service returns `domain.TaskState{}` and `time.Time{}` with its error, and the nil id on a failed create. The nil id is modelled in `TaskUsecase.CreateTask`. The empty state is not modelled, because the empty status is not one of the three statuses. A service lookup error therefore carries no value.
- TaskRepo.StateReturnValues: Go's `TaskStatus` is open text, and the store keeps whatever status the caller gave, including the zero status `""`. The store can then return `""` with a nil error. The model's status has only the three named values, so the status text returned on success is never empty here. "Empty text exactly when the lookup failed" therefore holds in the model but not in the source. Through the service, a stored status is always `in_progress`.
- Domain.SentinelText: only the text "task not found" is defined in the domain file. The three validation sentinels get stand-in texts, because their definitions are not part of this model. No property depends on those texts beyond containment.
- TaskUsecase.RuneCount: Dafny strings are sequences of Unicode scalar values, so the length is the code-point count. Go's count of one rune per invalid UTF-8 byte is not modelled, because a Dafny string cannot hold invalid UTF-8.
- HTTP handlers, routes, error responses and request binding are gin and JSON glue. The empty- and missing-title tests are stopped by request binding, not by the service.
- The logging side effects of `LoggingMiddleware` are left out: log output, client address, timing and the per-request uuid. Only `getPackageAndHandlerName` is modelled.
- Configuration loading, server start-up and shutdown, wiring, and signal handling are left out.
- HandlerName.DeleteAll: models `strings.ReplaceAll` only with an empty replacement, which is how it is called. For an empty pattern with an empty replacement, Go also returns the input unchanged.
