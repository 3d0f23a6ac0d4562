/**
 The in-memory store of extraction tasks (src/app/services/tasks_storage.py): a map
 from task id to a record of fixed fields, changed by operations that overwrite some of
 the fields. No operation looks at the current status first. Timestamps and freshly drawn ids
 come in as parameters, and `R` stands for whatever result value the caller stores.
 */
module TaskStorage {
  import opened Wrappers

  /** One task record; `None` stands for Python's `None`. */
  datatype Task<R> = Task(
    status: string,
    createdAt: string,
    updatedAt: string,
    progress: int,
    totalQuestions: int,
    currentQuestion: int,
    result: Option<R>,
    error: Option<string>)

  type Store<R> = map<string, Task<R>>

  /** The keyword arguments of one `update_task` call: `Some` for each field passed. */
  datatype Patch<R> = Patch(
    status: Option<string>,
    progress: Option<int>,
    totalQuestions: Option<int>,
    currentQuestion: Option<int>,
    result: Option<R>,
    error: Option<string>)

  /** A task as `create_task` writes it, both timestamps `now` (lines 17-26). */
  function Pending<R>(now: string): Task<R> {
    Task("pending", now, now, 0, 0, 0, None, None)
  }

  /** `create_task(task_id)`: the given id, or `newId` when none is given, now maps to a pending task. */
  function CreateTask<R>(store: Store<R>, taskId: Option<string>, newId: string, now: string): (r: (Store<R>, string))
    ensures taskId.Some? ==> r.1 == taskId.value
    ensures taskId.None? ==> r.1 == newId
    ensures r.0.Keys == store.Keys + {r.1}
    ensures r.0[r.1] == Pending(now)
    ensures forall k :: k in store && k != r.1 ==> r.0[k] == store[k]
  {
    var id := if taskId.Some? then taskId.value else newId;
    (store[id := Pending(now)], id)
  }

  /** `dict.update(kwargs)` on one record: each field passed is overwritten, the others kept. */
  function Apply<R>(t: Task<R>, p: Patch<R>): (u: Task<R>)
    ensures u.status == (if p.status.Some? then p.status.value else t.status)
    ensures u.progress == (if p.progress.Some? then p.progress.value else t.progress)
    ensures u.totalQuestions == (if p.totalQuestions.Some? then p.totalQuestions.value else t.totalQuestions)
    ensures u.currentQuestion == (if p.currentQuestion.Some? then p.currentQuestion.value else t.currentQuestion)
    ensures u.result == (if p.result.Some? then p.result else t.result)
    ensures u.error == (if p.error.Some? then p.error else t.error)
    ensures u.createdAt == t.createdAt && u.updatedAt == t.updatedAt
  {
    Task(
      if p.status.Some? then p.status.value else t.status,
      t.createdAt,
      t.updatedAt,
      if p.progress.Some? then p.progress.value else t.progress,
      if p.totalQuestions.Some? then p.totalQuestions.value else t.totalQuestions,
      if p.currentQuestion.Some? then p.currentQuestion.value else t.currentQuestion,
      if p.result.Some? then p.result else t.result,
      if p.error.Some? then p.error else t.error)
  }

  /** `update_task(task_id, **kwargs)`: an unknown id changes nothing; a known one gets the patch and `updated_at = now` (lines 29-33). */
  function UpdateTask<R>(store: Store<R>, taskId: string, p: Patch<R>, now: string): (r: Store<R>)
    ensures taskId !in store ==> r == store
    ensures r.Keys == store.Keys
    ensures forall k :: k in store && k != taskId ==> r[k] == store[k]
    ensures taskId in store ==> r[taskId] == Apply(store[taskId], p).(updatedAt := now)
  {
    if taskId in store then store[taskId := Apply(store[taskId], p).(updatedAt := now)] else store
  }

  /** What `get_task` returns: the record, or the stand-in for an unknown id. */
  datatype View<R> = Record(task: Task<R>) | NotFound(status: string, error: string)

  /** `get_task(task_id)` (lines 35-39). It reads the store and never adds to it. */
  function GetTask<R>(store: Store<R>, taskId: string): (v: View<R>)
    ensures taskId in store <==> v.Record?
    ensures v.Record? ==> v.task == store[taskId]
    ensures v.NotFound? ==> v.status == "not_found" && v.error == "Task ID n\U{E3}o encontrado"
  {
    if taskId in store then Record(store[taskId]) else NotFound("not_found", "Task ID n\U{E3}o encontrado")
  }

  /** No field given. */
  function NoChange<R>(): Patch<R> {
    Patch(None, None, None, None, None, None)
  }

  /**
   `set_progress(task_id, current, total)` (lines 41-46). `percent` is what
   `int((current / total) * 100)` gives when `total > 0`; it is not used otherwise.
   */
  function SetProgress<R>(store: Store<R>, taskId: string, current: int, total: int, percent: int, now: string): (r: Store<R>)
    ensures r.Keys == store.Keys
    ensures taskId in store ==>
              && r[taskId].currentQuestion == current
              && r[taskId].totalQuestions == total
              && r[taskId].progress == (if total > 0 then percent else 0)
              && r[taskId].status == store[taskId].status
              && r[taskId].result == store[taskId].result
  {
    var progress := if total > 0 then percent else 0;
    UpdateTask(store, taskId, NoChange().(currentQuestion := Some(current), totalQuestions := Some(total), progress := Some(progress)), now)
  }

  /** `complete_task(task_id, result)` (lines 48-50). */
  function CompleteTask<R>(store: Store<R>, taskId: string, result: R, now: string): (r: Store<R>)
    ensures r.Keys == store.Keys
    ensures taskId in store ==>
              && r[taskId].status == "completed"
              && r[taskId].result == Some(result)
              && r[taskId].progress == 100
              && r[taskId].error == store[taskId].error
  {
    UpdateTask(store, taskId, NoChange().(status := Some("completed"), result := Some(result), progress := Some(100)), now)
  }

  /** `fail_task(task_id, error)` (lines 52-54): result and progress are left as they were. */
  function FailTask<R>(store: Store<R>, taskId: string, error: string, now: string): (r: Store<R>)
    ensures r.Keys == store.Keys
    ensures taskId in store ==>
              && r[taskId].status == "failed"
              && r[taskId].error == Some(error)
              && r[taskId].result == store[taskId].result
              && r[taskId].progress == store[taskId].progress
  {
    UpdateTask(store, taskId, NoChange().(status := Some("failed"), error := Some(error)), now)
  }

  // ---------------------------------------------------------------------------
  // Properties of sequences of operations

  /** A created task reads back as a new pending record. */
  lemma GetAfterCreate<R>(store: Store<R>, taskId: Option<string>, newId: string, now: string)
    ensures var (s, id) := CreateTask(store, taskId, newId, now);
            GetTask(s, id) == Record(Pending(now))
  {
  }

  /** Creating a task under an id already in use replaces that task outright. */
  lemma CreateOverwrites<R>(store: Store<R>, id: string, newId: string, now: string, p: Patch<R>, later: string)
    requires id in store
    ensures var s := UpdateTask(store, id, p, later);
            CreateTask(s, Some(id), newId, now).0 == CreateTask(store, Some(id), newId, now).0
  {
    var s := UpdateTask(store, id, p, later);
    assert s[id := Pending(now)] == store[id := Pending(now)];
  }

  /** Updates of two different tasks do not interfere: they commute. */
  lemma UpdatesCommute<R>(store: Store<R>, a: string, p: Patch<R>, b: string, q: Patch<R>, now: string)
    requires a != b
    ensures UpdateTask(UpdateTask(store, a, p, now), b, q, now) == UpdateTask(UpdateTask(store, b, q, now), a, p, now)
  {
  }

  /** Applying the same patch twice is applying it once. */
  lemma UpdateIdempotent<R>(store: Store<R>, id: string, p: Patch<R>, now: string)
    ensures UpdateTask(UpdateTask(store, id, p, now), id, p, now) == UpdateTask(store, id, p, now)
  {
    if id in store {
      var t := Apply(store[id], p).(updatedAt := now);
      assert Apply(t, p).(updatedAt := now) == t;
    }
  }

  /**
   No status check: a completed task can still fail. It then reads as failed, with the
   result and the progress of its completion kept.
   */
  lemma FailAfterComplete<R>(store: Store<R>, id: string, result: R, error: string, t1: string, t2: string)
    requires id in store
    ensures var s := FailTask(CompleteTask(store, id, result, t1), id, error, t2);
            && s[id].status == "failed"
            && s[id].error == Some(error)
            && s[id].result == Some(result)
            && s[id].progress == 100
  {
  }

  /** Nor the other way round: a failed task can still complete, keeping its error message. */
  lemma CompleteAfterFail<R>(store: Store<R>, id: string, result: R, error: string, t1: string, t2: string)
    requires id in store
    ensures var s := CompleteTask(FailTask(store, id, error, t1), id, result, t2);
            && s[id].status == "completed"
            && s[id].error == Some(error)
            && s[id].result == Some(result)
            && s[id].progress == 100
  {
  }

  /** Operations on an unknown id leave the store as it was. */
  lemma UnknownIdUntouched<R>(store: Store<R>, id: string, current: int, total: int, percent: int, result: R, error: string, now: string)
    requires id !in store
    ensures SetProgress(store, id, current, total, percent, now) == store
    ensures CompleteTask(store, id, result, now) == store
    ensures FailTask(store, id, error, now) == store
  {
  }
}
