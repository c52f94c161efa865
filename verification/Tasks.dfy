/** Versioned tasks: the in-memory repository, its optimistic versions, and the mutation service above it. */
module Tasks {
  import opened Basics
  import opened Patches

  const COLLECTING_REQUIREMENTS: Id := 0
  const RUNNING: Id := 0
  const NO_CONTENT := Content(None, None, None, [], [], [])

  datatype Task = Task(
    taskId: Id, sessionId: Id, workspaceId: Id, content: Content, stage: Id, status: Id, version: int,
    sourceMessage: Option<Id>)

  datatype TaskVersion = TaskVersion(
    taskId: Id, version: int, parent: Option<int>, content: Content, sourceMessage: Option<Id>, mutationId: Option<Id>)

  datatype Session = Session(workspaceId: Id, sessionId: Id)

  datatype CreateKey = CreateKey(session: Session, message: Id)

  datatype MessageKey = MessageKey(taskId: Id, message: Id)

  datatype Error = NotFound | VersionConflict(expected: int, actual: int) | InvalidPatch

  datatype Repo = Repo(
    tasks: map<Id, Task>, versions: map<Id, seq<TaskVersion>>, activeTask: map<Session, Id>,
    created: map<CreateKey, Id>, applied: map<MessageKey, int>)

  const EMPTY_REPO := Repo(map[], map[], map[], map[], map[])

  /** TaskVersion.from_task. */
  function Recorded(t: Task, parent: Option<int>, mutationId: Option<Id>, message: Option<Id>): TaskVersion {
    TaskVersion(t.taskId, t.version, parent, t.content, if message.Some? then message else t.sourceMessage, mutationId)
  }

  function FromVersion(head: Task, v: TaskVersion): Task {
    head.(version := v.version, content := v.content)
  }

  function FindVersion(vs: seq<TaskVersion>, version: int): Option<TaskVersion> {
    if vs == [] then None
    else if vs[0].version == version then Some(vs[0])
    else FindVersion(vs[1..], version)
  }

  // ---------------------------------------------------------------------------------------------
  // Specification of the operations

  /** A task of another workspace is invisible. */
  function Visible(r: Repo, ws: Id, taskId: Id): Option<Task> {
    if taskId in r.tasks && r.tasks[taskId].workspaceId == ws then Some(r.tasks[taskId]) else None
  }

  function NewTask(ws: Id, session: Id, message: Option<Id>, freshId: Id): Task {
    Task(freshId, session, ws, NO_CONTENT, COLLECTING_REQUIREMENTS, RUNNING, 1, message)
  }

  function CreateStep(r: Repo, ws: Id, session: Id, message: Option<Id>, freshId: Id): (Repo, Option<Task>) {
    var s := Session(ws, session);
    if message.Some? && CreateKey(s, message.value) in r.created then
      (r, Visible(r, ws, r.created[CreateKey(s, message.value)]))
    else
      var t := NewTask(ws, session, message, freshId);
      (Repo(r.tasks[freshId := t], r.versions[freshId := [Recorded(t, None, None, None)]], r.activeTask[s := freshId],
            if message.Some? then r.created[CreateKey(s, message.value) := freshId] else r.created, r.applied), Some(t))
  }

  /** update_task without a version record. */
  function Stored(r: Repo, t: Task): Repo {
    r.(tasks := r.tasks[t.taskId := t], activeTask := r.activeTask[Session(t.workspaceId, t.sessionId) := t.taskId])
  }

  function History(r: Repo, taskId: Id): seq<TaskVersion> {
    if taskId in r.versions then r.versions[taskId] else []
  }

  /** update_task with record_version: a version number already recorded is not recorded again. */
  function StoredVersion(r: Repo, t: Task, v: TaskVersion): Repo {
    var vs := History(r, t.taskId);
    Stored(r, t).(versions := r.versions[t.taskId := if FindVersion(vs, t.version).Some? then vs else vs + [v]])
  }

  function ApplyStep(r: Repo, ws: Id, taskId: Id, p: Patch, base: Option<int>, mutationId: Option<Id>,
                     message: Option<Id>): (Repo, Result<Task, Error>)
  {
    var task := Visible(r, ws, taskId);
    if task.None? then (r, Failure(NotFound))
    else if message.Some? && MessageKey(taskId, message.value) in r.applied then
      var v := FindVersion(History(r, taskId), r.applied[MessageKey(taskId, message.value)]);
      (r, if v.Some? then Success(FromVersion(task.value, v.value)) else Failure(NotFound))
    else if base.GetOr(task.value.version) != task.value.version then
      (r, Failure(VersionConflict(base.GetOr(task.value.version), task.value.version)))
    else
      var next := task.value.(content := Patched(task.value.content, p), version := task.value.version + 1);
      var r1 := StoredVersion(r, next, Recorded(next, Some(task.value.version), mutationId, message));
      (if message.Some? then r1.(applied := r1.applied[MessageKey(taskId, message.value) := next.version]) else r1,
       Success(next))
  }

  function SetStatusStep(r: Repo, ws: Id, taskId: Id, stage: Option<Id>, status: Option<Id>): (Repo, Result<Task, Error>) {
    var task := Visible(r, ws, taskId);
    if task.None? then (r, Failure(NotFound))
    else
      var t := task.value.(stage := stage.GetOr(task.value.stage), status := status.GetOr(task.value.status));
      (Stored(r, t), Success(t))
  }

  // ---------------------------------------------------------------------------------------------
  // The repository object

  class TaskRepository {
    var tasks: map<Id, Task>
    var versions: map<Id, seq<TaskVersion>>
    var activeTask: map<Session, Id>
    var created: map<CreateKey, Id>
    var applied: map<MessageKey, int>

    ghost function Abstract(): Repo
      reads this
    {
      Repo(tasks, versions, activeTask, created, applied)
    }

    constructor ()
      ensures Abstract() == EMPTY_REPO
    {
      tasks, versions, activeTask, created, applied := map[], map[], map[], map[], map[];
    }

    method GetTask(ws: Id, taskId: Id) returns (t: Option<Task>)
      ensures t == Visible(Abstract(), ws, taskId)
    {
      if taskId !in tasks || tasks[taskId].workspaceId != ws {
        return None;
      }
      return Some(tasks[taskId]);
    }

    method CreateTask(ws: Id, session: Id, message: Option<Id>, freshId: Id) returns (t: Option<Task>)
      modifies this
      ensures (Abstract(), t) == CreateStep(old(Abstract()), ws, session, message, freshId)
    {
      var s := Session(ws, session);
      if message.Some? && CreateKey(s, message.value) in created {
        t := GetTask(ws, created[CreateKey(s, message.value)]);
        return;
      }
      var task := NewTask(ws, session, message, freshId);
      tasks := tasks[freshId := task];
      versions := versions[freshId := [Recorded(task, None, None, None)]];
      activeTask := activeTask[s := freshId];
      if message.Some? {
        created := created[CreateKey(s, message.value) := freshId];
      }
      return Some(task);
    }

    method UpdateTask(t: Task, record: Option<TaskVersion>)
      modifies this
      ensures Abstract() == if record.Some? then StoredVersion(old(Abstract()), t, record.value) else Stored(old(Abstract()), t)
    {
      tasks := tasks[t.taskId := t];
      activeTask := activeTask[Session(t.workspaceId, t.sessionId) := t.taskId];
      if record.Some? {
        var vs := if t.taskId in versions then versions[t.taskId] else [];
        if FindVersion(vs, t.version).None? {
          vs := vs + [record.value];
        }
        versions := versions[t.taskId := vs];
      }
    }

    method ApplyPatch(ws: Id, taskId: Id, p: Patch, base: Option<int>, mutationId: Option<Id>, message: Option<Id>)
      returns (r: Result<Task, Error>)
      modifies this
      ensures (Abstract(), r) == ApplyStep(old(Abstract()), ws, taskId, p, base, mutationId, message)
    {
      var task := GetTask(ws, taskId);
      if task.None? {
        return Failure(NotFound);
      }
      if message.Some? && MessageKey(taskId, message.value) in applied {
        var prior := FindVersion(if taskId in versions then versions[taskId] else [], applied[MessageKey(taskId, message.value)]);
        return if prior.Some? then Success(FromVersion(task.value, prior.value)) else Failure(NotFound);
      }
      var expected := base.GetOr(task.value.version);
      if expected != task.value.version {
        return Failure(VersionConflict(expected, task.value.version));
      }
      var content := ApplyPatchPure(task.value.content, p);
      var next := task.value.(content := content, version := task.value.version + 1);
      UpdateTask(next, Some(Recorded(next, Some(task.value.version), mutationId, message)));
      if message.Some? {
        applied := applied[MessageKey(taskId, message.value) := next.version];
      }
      return Success(next);
    }

    method SetStatus(ws: Id, taskId: Id, stage: Option<Id>, status: Option<Id>) returns (r: Result<Task, Error>)
      modifies this
      ensures (Abstract(), r) == SetStatusStep(old(Abstract()), ws, taskId, stage, status)
    {
      var task := GetTask(ws, taskId);
      if task.None? {
        return Failure(NotFound);
      }
      var t := task.value.(stage := stage.GetOr(task.value.stage), status := status.GetOr(task.value.status));
      UpdateTask(t, None);
      return Success(t);
    }
  }

  // ---------------------------------------------------------------------------------------------
  // The mutation service

  datatype Mutation = Mutation(mutationId: Id, baseVersion: int, targetVersion: int, none: bool)

  datatype Store = Store(repo: Repo, mutations: map<MessageKey, Mutation>)

  const EMPTY_STORE := Store(EMPTY_REPO, map[])

  datatype MutateRequest = MutateRequest(ws: Id, taskId: Id, base: int, message: Id, patch: Patch, mutationId: Id)

  /** `accepted` is the outcome of validate_patch, `code` the business alias table. */
  function MutateStep(s: Store, q: MutateRequest, accepted: bool, code: Option<Id> -> Id)
    : (Store, Result<(Mutation, Option<Task>), Error>)
  {
    var key := MessageKey(q.taskId, q.message);
    var task := Visible(s.repo, q.ws, q.taskId);
    if key in s.mutations then (s, Success((s.mutations[key], task)))
    else if !accepted then (s, Failure(InvalidPatch))
    else if task.None? then (s, Failure(NotFound))
    else if task.value.version != q.base then (s, Failure(VersionConflict(q.base, task.value.version)))
    else if ScopeIsNone(task.value.content, Patched(task.value.content, q.patch), code) then
      var m := Mutation(q.mutationId, q.base, q.base, true);
      (s.(mutations := s.mutations[key := m]), Success((m, task)))
    else
      var m := Mutation(q.mutationId, q.base, q.base + 1, false);
      var (repo, updated) := ApplyStep(s.repo, q.ws, q.taskId, q.patch, Some(q.base), Some(q.mutationId), Some(q.message));
      match updated
      case Success(t) => (Store(repo, s.mutations[key := m]), Success((m, Some(t))))
      case Failure(e) => (Store(repo, s.mutations), Failure(e))
  }

  class MutationService {
    const repository: TaskRepository
    var mutations: map<MessageKey, Mutation>

    ghost function Abstract(): Store
      reads this, repository
    {
      Store(repository.Abstract(), mutations)
    }

    constructor (repository: TaskRepository)
      ensures this.repository == repository && mutations == map[]
    {
      this.repository := repository;
      mutations := map[];
    }

    method Mutate(q: MutateRequest, accepted: bool, code: Option<Id> -> Id)
      returns (r: Result<(Mutation, Option<Task>), Error>)
      modifies this, repository
      ensures (Abstract(), r) == MutateStep(old(Abstract()), q, accepted, code)
    {
      var key := MessageKey(q.taskId, q.message);
      if key in mutations {
        var current := repository.GetTask(q.ws, q.taskId);
        return Success((mutations[key], current));
      }
      if !accepted {
        return Failure(InvalidPatch);
      }
      var task := repository.GetTask(q.ws, q.taskId);
      if task.None? {
        return Failure(NotFound);
      }
      if task.value.version != q.base {
        return Failure(VersionConflict(q.base, task.value.version));
      }
      var prospective := ApplyPatchPure(task.value.content, q.patch);
      var none := ScopeIsNone(task.value.content, prospective, code);
      var mutation := Mutation(q.mutationId, q.base, if none then q.base else task.value.version + 1, none);
      if none {
        mutations := mutations[key := mutation];
        return Success((mutation, task));
      }
      var updated := repository.ApplyPatch(q.ws, q.taskId, q.patch, Some(q.base), Some(q.mutationId), Some(q.message));
      if updated.Failure? {
        return Failure(updated.error);
      }
      mutations := mutations[key := mutation];
      return Success((mutation, Some(updated.value)));
    }
  }

  // ---------------------------------------------------------------------------------------------
  // What every operation keeps

  /** Versions 1, 2, 3, ... each the child of the one before. */
  ghost predicate Chain(vs: seq<TaskVersion>) {
    forall i :: 0 <= i < |vs| ==> vs[i].version == i + 1 && vs[i].parent == if i == 0 then None else Some(i)
  }

  /** The head task shows the newest recorded version. */
  ghost predicate Headed(t: Task, vs: seq<TaskVersion>) {
    vs != [] && Chain(vs) && t.version == |vs| && vs[|vs| - 1].content == t.content
  }

  ghost predicate Consistent(r: Repo) {
    && r.versions.Keys == r.tasks.Keys
    && (forall id <- r.tasks :: r.tasks[id].taskId == id && Headed(r.tasks[id], r.versions[id]))
    && (forall k <- r.applied :: k.taskId in r.tasks && 1 <= r.applied[k] <= |r.versions[k.taskId]|)
  }

  /** What is only ever added to: recorded versions, answers to messages, and a task's place. */
  ghost predicate Extends(r: Repo, r': Repo) {
    && (forall id <- r.tasks :: id in r'.tasks && r'.tasks[id].workspaceId == r.tasks[id].workspaceId)
    && (forall id <- r.versions :: id in r'.versions && r.versions[id] <= r'.versions[id])
    && (forall k <- r.applied :: k in r'.applied && r'.applied[k] == r.applied[k])
  }

  lemma {:induction false} FindInChain(vs: seq<TaskVersion>, n: nat, version: int)
    requires n <= |vs| && Chain(vs)
    ensures FindVersion(vs[n..], version) ==
            if n + 1 <= version <= |vs| then Some(vs[version - 1]) else None
    decreases |vs| - n
  {
    if n < |vs| {
      assert vs[n..][1..] == vs[n + 1..];
      FindInChain(vs, n + 1, version);
    }
  }

  /** In a consistent repository looking a version up is indexing its history. */
  lemma FindRecorded(r: Repo, id: Id, version: int)
    requires Consistent(r) && id in r.tasks
    ensures FindVersion(r.versions[id], version) ==
            if 1 <= version <= |r.versions[id]| then Some(r.versions[id][version - 1]) else None
  {
    FindInChain(r.versions[id], 0, version);
    assert r.versions[id][0..] == r.versions[id];
  }

  lemma HeadedSnoc(t: Task, vs: seq<TaskVersion>, t': Task, v: TaskVersion)
    requires Headed(t, vs) && t'.version == t.version + 1
    requires v.version == t'.version && v.parent == Some(t.version) && v.content == t'.content
    ensures Headed(t', vs + [v])
  {
  }

  /** A head replaced by one with the same version and content, such as another status. */
  lemma StoredKeeps(r: Repo, t: Task)
    requires Consistent(r) && t.taskId in r.tasks
    requires var h := r.tasks[t.taskId]; t.workspaceId == h.workspaceId && t.content == h.content && t.version == h.version
    ensures Consistent(Stored(r, t)) && Extends(r, Stored(r, t))
  {
  }

  lemma HeadReplaced(r: Repo, r': Repo, t: Task)
    requires Consistent(r) && t.taskId in r.tasks && t.workspaceId == r.tasks[t.taskId].workspaceId
    requires r'.tasks == r.tasks[t.taskId := t] && r'.applied == r.applied
    requires r'.versions.Keys == r.versions.Keys && r.versions[t.taskId] <= r'.versions[t.taskId]
    requires forall id <- r.versions :: id != t.taskId ==> r'.versions[id] == r.versions[id]
    requires Headed(t, r'.versions[t.taskId])
    ensures Consistent(r') && Extends(r, r')
  {
    hide Headed;
  }

  /** A head advanced by one version with its record appended. */
  lemma StoredVersionKeeps(r: Repo, t: Task, v: TaskVersion)
    requires Consistent(r) && t.taskId in r.tasks
    requires t.workspaceId == r.tasks[t.taskId].workspaceId && t.version == r.tasks[t.taskId].version + 1
    requires v.version == t.version && v.parent == Some(t.version - 1) && v.content == t.content
    ensures Consistent(StoredVersion(r, t, v)) && Extends(r, StoredVersion(r, t, v))
    ensures StoredVersion(r, t, v).versions[t.taskId] == r.versions[t.taskId] + [v]
  {
    FindRecorded(r, t.taskId, t.version);
    HeadedSnoc(r.tasks[t.taskId], r.versions[t.taskId], t, v);
    var r' := StoredVersion(r, t, v);
    assert r'.versions == r.versions[t.taskId := r.versions[t.taskId] + [v]];
    hide Consistent, Extends, Headed, FindVersion;
    HeadReplaced(r, r', t);
  }

  /** Filing the answer to a new message. */
  lemma AnswerKeeps(r: Repo, r1: Repo, k: MessageKey, version: int)
    requires Consistent(r1) && Extends(r, r1) && k !in r.applied
    requires k.taskId in r1.tasks && 1 <= version <= |r1.versions[k.taskId]|
    ensures var r2 := r1.(applied := r1.applied[k := version]); Consistent(r2) && Extends(r, r2)
  {
  }

  lemma CreateKeeps(r: Repo, ws: Id, session: Id, message: Option<Id>, freshId: Id)
    requires Consistent(r) && freshId !in r.tasks
    ensures var r' := CreateStep(r, ws, session, message, freshId).0; Consistent(r') && Extends(r, r')
  {
    var t := NewTask(ws, session, message, freshId);
    var r' := CreateStep(r, ws, session, message, freshId).0;
    var vs := [Recorded(t, None, None, None)];
    assert Headed(t, vs) && freshId !in r.versions;
    assert r' == r || (r'.tasks == r.tasks[freshId := t] && r'.versions == r.versions[freshId := vs] && r'.applied == r.applied);
    hide Headed, Recorded, CreateStep, NewTask;
    if r' == r {
      ExtendsItself(r);
    } else {
      AddedKeeps(r, r', t, vs);
    }
  }

  lemma AddedKeeps(r: Repo, r': Repo, t: Task, vs: seq<TaskVersion>)
    requires Consistent(r) && t.taskId !in r.tasks && Headed(t, vs)
    requires r'.tasks == r.tasks[t.taskId := t] && r'.versions == r.versions[t.taskId := vs] && r'.applied == r.applied
    ensures Consistent(r') && Extends(r, r')
  {
    hide Headed;
  }

  lemma ApplyKeeps(r: Repo, ws: Id, taskId: Id, p: Patch, base: Option<int>, mutationId: Option<Id>, message: Option<Id>)
    requires Consistent(r)
    ensures var r' := ApplyStep(r, ws, taskId, p, base, mutationId, message).0; Consistent(r') && Extends(r, r')
  {
    var task := Visible(r, ws, taskId);
    var (r', res) := ApplyStep(r, ws, taskId, p, base, mutationId, message);
    if r' != r {
      var v := Recorded(res.value, Some(task.value.version), mutationId, message);
      StoredVersionKeeps(r, res.value, v);
      if message.Some? {
        AnswerKeeps(r, StoredVersion(r, res.value, v), MessageKey(taskId, message.value), res.value.version);
      }
    }
  }

  /** An accepted patch appends exactly one version, child of the old head; anything else leaves the store as it was:
      unknown task, stale base version, or a message answered before. */
  lemma ApplyAppendsOrRejects(r: Repo, ws: Id, taskId: Id, p: Patch, base: Option<int>, mutationId: Option<Id>, message: Option<Id>)
    requires Consistent(r)
    ensures var (r', res) := ApplyStep(r, ws, taskId, p, base, mutationId, message);
            var replayed := message.Some? && MessageKey(taskId, message.value) in r.applied;
            if Visible(r, ws, taskId).None? then r' == r && res == Failure(NotFound)
            else if replayed then r' == r && res.Success?
            else
              var head := r.tasks[taskId];
              if base.Some? && base.value != head.version then r' == r && res == Failure(VersionConflict(base.value, head.version))
              else
                res.Success? && res.value.version == head.version + 1 == |r'.versions[taskId]|
                && res.value == head.(content := Patched(head.content, p), version := head.version + 1)
                && r'.tasks[taskId] == res.value
                && r'.versions[taskId] == r.versions[taskId] + [TaskVersion(
                     taskId, head.version + 1, Some(head.version), res.value.content,
                     if message.Some? then message else head.sourceMessage, mutationId)]
                && (forall id <- r.tasks :: id != taskId ==> r'.tasks[id] == r.tasks[id] && r'.versions[id] == r.versions[id])
  {
    hide Patched, Headed;
    var task := Visible(r, ws, taskId);
    if task.Some? {
      if message.Some? && MessageKey(taskId, message.value) in r.applied {
        FindRecorded(r, taskId, r.applied[MessageKey(taskId, message.value)]);
      } else if base.GetOr(task.value.version) == task.value.version {
        AcceptedApply(r, ws, taskId, p, base, mutationId, message);
        hide ApplyStep;
      }
    }
  }

  /** The accepted case. */
  lemma AcceptedApply(r: Repo, ws: Id, taskId: Id, p: Patch, base: Option<int>, mutationId: Option<Id>, message: Option<Id>)
    requires Consistent(r) && Visible(r, ws, taskId).Some?
    requires message.Some? ==> MessageKey(taskId, message.value) !in r.applied
    requires base.GetOr(r.tasks[taskId].version) == r.tasks[taskId].version
    ensures var (r', res), head := ApplyStep(r, ws, taskId, p, base, mutationId, message), r.tasks[taskId];
            && taskId in r.versions && taskId in r'.tasks && taskId in r'.versions
            && res == Success(head.(content := Patched(head.content, p), version := head.version + 1))
            && r'.tasks[taskId] == res.value && |r'.versions[taskId]| == head.version + 1
            && r'.versions[taskId] == r.versions[taskId] + [TaskVersion(
                 taskId, head.version + 1, Some(head.version), res.value.content,
                 if message.Some? then message else head.sourceMessage, mutationId)]
            && (forall id <- r.tasks :: id != taskId ==>
                  id in r'.tasks && id in r'.versions && id in r.versions
                  && r'.tasks[id] == r.tasks[id] && r'.versions[id] == r.versions[id])
  {
    hide Patched;
    var head := r.tasks[taskId];
    assert Headed(head, r.versions[taskId]) && head.taskId == taskId;
    var next := head.(content := Patched(head.content, p), version := head.version + 1);
    var v := Recorded(next, Some(head.version), mutationId, message);
    ApplyStores(r, ws, taskId, p, base, mutationId, message);
    hide ApplyStep, Headed, Extends;
    StoredVersionKeeps(r, next, v);
    StoredVersionIs(r, next, v);
    hide StoredVersion;
  }

  lemma ApplyStores(r: Repo, ws: Id, taskId: Id, p: Patch, base: Option<int>, mutationId: Option<Id>, message: Option<Id>)
    requires Visible(r, ws, taskId).Some? && (message.Some? ==> MessageKey(taskId, message.value) !in r.applied)
    requires base.GetOr(r.tasks[taskId].version) == r.tasks[taskId].version
    ensures var (r', res), head := ApplyStep(r, ws, taskId, p, base, mutationId, message), r.tasks[taskId];
            var next := head.(content := Patched(head.content, p), version := head.version + 1);
            var stored := StoredVersion(r, next, Recorded(next, Some(head.version), mutationId, message));
            res == Success(next) && r'.tasks == stored.tasks && r'.versions == stored.versions
  {
    hide Patched, StoredVersion, Recorded;
  }

  lemma StoredVersionIs(r: Repo, t: Task, v: TaskVersion)
    ensures var r' := StoredVersion(r, t, v);
            && r'.tasks == r.tasks[t.taskId := t] && r'.versions.Keys == r.versions.Keys + {t.taskId}
            && forall id <- r.versions :: id != t.taskId ==> r'.versions[id] == r.versions[id]
  {
    hide FindVersion;
  }

  // ---------------------------------------------------------------------------------------------
  // Histories

  datatype Event =
    | Create(ws: Id, session: Id, createMessage: Option<Id>, freshId: Id)
    | Apply(ws: Id, taskId: Id, patch: Patch, base: Option<int>, mutationId: Option<Id>, message: Option<Id>)
    | SetStatus(ws: Id, taskId: Id, stage: Option<Id>, status: Option<Id>)
    | Mutate(q: MutateRequest, accepted: bool, code: Option<Id> -> Id)

  function Step(s: Store, e: Event): Store {
    match e
    case Create(ws, session, message, freshId) => s.(repo := CreateStep(s.repo, ws, session, message, freshId).0)
    case Apply(ws, taskId, p, base, mutationId, message) => s.(repo := ApplyStep(s.repo, ws, taskId, p, base, mutationId, message).0)
    case SetStatus(ws, taskId, stage, status) => s.(repo := SetStatusStep(s.repo, ws, taskId, stage, status).0)
    case Mutate(q, accepted, code) => MutateStep(s, q, accepted, code).0
  }

  ghost predicate Legal(s: Store, e: Event) {
    e.Create? ==> e.freshId !in s.repo.tasks
  }

  ghost function Exec(es: seq<Event>): Store {
    if es == [] then EMPTY_STORE
    else
      var n := |es| - 1;
      Step(Exec(es[..n]), es[n])
  }

  ghost predicate LegalRun(es: seq<Event>) {
    forall i :: 0 <= i < |es| ==> Legal(Exec(es[..i]), es[i])
  }

  ghost predicate StoreExtends(s: Store, s': Store) {
    Extends(s.repo, s'.repo) && forall k <- s.mutations :: k in s'.mutations && s'.mutations[k] == s.mutations[k]
  }

  lemma ExtendsItself(r: Repo)
    ensures Extends(r, r)
  {
  }

  lemma MutateKeeps(s: Store, q: MutateRequest, accepted: bool, code: Option<Id> -> Id)
    requires Consistent(s.repo)
    ensures var s' := MutateStep(s, q, accepted, code).0; Consistent(s'.repo) && StoreExtends(s, s')
  {
    hide ScopeIsNone, Patched, Consistent, Extends, ApplyStep;
    var s' := MutateStep(s, q, accepted, code).0;
    var r' := ApplyStep(s.repo, q.ws, q.taskId, q.patch, Some(q.base), Some(q.mutationId), Some(q.message)).0;
    ApplyKeeps(s.repo, q.ws, q.taskId, q.patch, Some(q.base), Some(q.mutationId), Some(q.message));
    ExtendsItself(s.repo);
    assert s'.repo == s.repo || s'.repo == r';
    assert MessageKey(q.taskId, q.message) in s.mutations ==> s' == s;
  }

  lemma StepKeeps(s: Store, e: Event)
    requires Consistent(s.repo) && Legal(s, e)
    ensures Consistent(Step(s, e).repo) && StoreExtends(s, Step(s, e))
  {
    match e
    case Create(ws, session, message, freshId) => CreateKeeps(s.repo, ws, session, message, freshId);
    case Apply(ws, taskId, p, base, mutationId, message) => ApplyKeeps(s.repo, ws, taskId, p, base, mutationId, message);
    case SetStatus(ws, taskId, stage, status) =>
      var (r', res) := SetStatusStep(s.repo, ws, taskId, stage, status);
      ExtendsItself(s.repo);
      if res.Success? {
        StoredKeeps(s.repo, res.value);
      }
    case Mutate(q, accepted, code) => MutateKeeps(s, q, accepted, code);
  }

  lemma PrefixIsLegal(es: seq<Event>, n: nat)
    requires LegalRun(es) && n <= |es|
    ensures LegalRun(es[..n])
  {
    forall i | 0 <= i < n
      ensures Legal(Exec(es[..n][..i]), es[..n][i])
    {
      assert es[..n][..i] == es[..i];
    }
  }

  /** Over every history each task has versions exactly 1..head, each the child of the one before. */
  lemma {:induction false} HistoryIsConsistent(es: seq<Event>)
    requires LegalRun(es)
    ensures Consistent(Exec(es).repo)
  {
    if es != [] {
      var n := |es| - 1;
      PrefixIsLegal(es, n);
      HistoryIsConsistent(es[..n]);
      assert Legal(Exec(es[..n]), es[n]);
      StepKeeps(Exec(es[..n]), es[n]);
    }
  }

  /** Nothing recorded is ever changed: versions only get appended, and first answers to messages stay. */
  lemma {:induction false} HistoryExtends(es: seq<Event>, n: nat)
    requires LegalRun(es) && n <= |es|
    ensures StoreExtends(Exec(es[..n]), Exec(es))
  {
    if n == |es| {
      assert es[..n] == es;
    } else {
      var last := |es| - 1;
      var front := es[..last];
      PrefixIsLegal(es, last);
      assert front[..n] == es[..n];
      HistoryExtends(front, n);
      HistoryIsConsistent(front);
      assert Legal(Exec(front), es[last]);
      StepKeeps(Exec(front), es[last]);
    }
  }

  /** From the step after event i up to event j. */
  lemma ExtendsBetween(es: seq<Event>, i: nat, j: nat)
    requires LegalRun(es) && i < j <= |es|
    ensures Consistent(Exec(es[..i]).repo) && Consistent(Exec(es[..j]).repo)
    ensures StoreExtends(Step(Exec(es[..i]), es[i]), Exec(es[..j]))
  {
    PrefixIsLegal(es, i);
    HistoryIsConsistent(es[..i]);
    PrefixIsLegal(es, j);
    HistoryIsConsistent(es[..j]);
    assert es[..j][..i + 1] == es[..i + 1] && es[..i + 1][..i] == es[..i];
    HistoryExtends(es[..j], i + 1);
    assert Exec(es[..i + 1]) == Step(Exec(es[..i]), es[i]);
  }

  ghost function ApplyResult(es: seq<Event>, i: nat): Result<Task, Error>
    requires i < |es| && es[i].Apply?
  {
    var e := es[i];
    ApplyStep(Exec(es[..i]).repo, e.ws, e.taskId, e.patch, e.base, e.mutationId, e.message).1
  }

  ghost function MutateResult(es: seq<Event>, i: nat): Result<(Mutation, Option<Task>), Error>
    requires i < |es| && es[i].Mutate?
  {
    MutateStep(Exec(es[..i]), es[i].q, es[i].accepted, es[i].code).1
  }

  /** The answer to a message is on record: its version number, and that version with the answer's content. */
  ghost predicate Answered(r: Repo, ws: Id, k: MessageKey, t: Task) {
    && k.taskId in r.tasks && r.tasks[k.taskId].workspaceId == ws && k.taskId in r.versions
    && k in r.applied && r.applied[k] == t.version && 1 <= t.version <= |r.versions[k.taskId]|
    && r.versions[k.taskId][t.version - 1].content == t.content
  }

  lemma AnsweredStays(r: Repo, r': Repo, ws: Id, k: MessageKey, t: Task)
    requires Answered(r, ws, k, t) && Extends(r, r')
    ensures Answered(r', ws, k, t)
  {
  }

  /** Right after a message's patch is applied, its answer is on record. */
  lemma ApplyLeavesRecord(r: Repo, ws: Id, taskId: Id, p: Patch, base: Option<int>, mutationId: Option<Id>, message: Id)
    requires Consistent(r) && ApplyStep(r, ws, taskId, p, base, mutationId, Some(message)).1.Success?
    ensures var (r', res) := ApplyStep(r, ws, taskId, p, base, mutationId, Some(message));
            Answered(r', ws, MessageKey(taskId, message), res.value)
  {
    hide Patched;
    if MessageKey(taskId, message) in r.applied {
      FindRecorded(r, taskId, r.applied[MessageKey(taskId, message)]);
    } else {
      hide Headed;
      AcceptedApply(r, ws, taskId, p, base, mutationId, Some(message));
    }
  }

  /** Replaying a message: whatever happened in between, and whatever patch and base the replay carries, it changes
      nothing and answers with the version and content of the first answer, under the head's present stage and status. */
  lemma ApplyReplay(es: seq<Event>, i: nat, j: nat)
    requires LegalRun(es) && i < j < |es| && es[i].Apply? && es[j].Apply?
    requires es[i].ws == es[j].ws && es[i].taskId == es[j].taskId && es[i].message == es[j].message && es[i].message.Some?
    requires ApplyResult(es, i).Success?
    ensures Step(Exec(es[..j]), es[j]) == Exec(es[..j])
    ensures var first := ApplyResult(es, i).value;
            && es[j].taskId in Exec(es[..j]).repo.tasks
            && ApplyResult(es, j) == Success(Exec(es[..j]).repo.tasks[es[j].taskId].(
                 version := first.version, content := first.content))
  {
    var e, first := es[i], ApplyResult(es, i).value;
    ExtendsBetween(es, i, j);
    ApplyLeavesRecord(Exec(es[..i]).repo, e.ws, e.taskId, e.patch, e.base, e.mutationId, e.message.value);
    AnsweredStays(Step(Exec(es[..i]), e).repo, Exec(es[..j]).repo, e.ws, MessageKey(e.taskId, e.message.value), first);
    FindRecorded(Exec(es[..j]).repo, e.taskId, first.version);
  }

  /** A mutation is stored under its message whenever one is returned. */
  lemma MutateReplay(es: seq<Event>, i: nat, j: nat)
    requires LegalRun(es) && i < j < |es| && es[i].Mutate? && es[j].Mutate?
    requires es[i].q.taskId == es[j].q.taskId && es[i].q.message == es[j].q.message
    requires MutateResult(es, i).Success?
    ensures Step(Exec(es[..j]), es[j]) == Exec(es[..j])
    ensures MutateResult(es, j).Success? && MutateResult(es, j).value.0 == MutateResult(es, i).value.0
  {
    hide ApplyStep, ScopeIsNone, Patched, Consistent, Extends;
    ExtendsBetween(es, i, j);
    var k := MessageKey(es[i].q.taskId, es[i].q.message);
    assert k in Step(Exec(es[..i]), es[i]).mutations;
  }

  /** A mutation against a version that is not the head is refused and changes nothing, unless it is a replay. */
  lemma StaleMutationRejected(s: Store, q: MutateRequest, code: Option<Id> -> Id)
    requires MessageKey(q.taskId, q.message) !in s.mutations && Visible(s.repo, q.ws, q.taskId).Some?
    requires s.repo.tasks[q.taskId].version != q.base
    ensures MutateStep(s, q, true, code) == (s, Failure(VersionConflict(q.base, s.repo.tasks[q.taskId].version)))
  {
  }

  /** An accepted mutation on the head either has no effect on the content and makes no version, or appends exactly
      the version it announces (when its message was not already applied directly). */
  lemma MutationMakesAnnouncedVersion(s: Store, q: MutateRequest, code: Option<Id> -> Id)
    requires Consistent(s.repo) && Visible(s.repo, q.ws, q.taskId).Some? && s.repo.tasks[q.taskId].version == q.base
    requires MessageKey(q.taskId, q.message) !in s.mutations && MessageKey(q.taskId, q.message) !in s.repo.applied
    ensures var (s', res) := MutateStep(s, q, true, code);
            var head := s.repo.tasks[q.taskId];
            res.Success?
            && if res.value.0.none then s'.repo == s.repo && SameEffect(head.content, Patched(head.content, q.patch))
               else
                 && res.value.0.targetVersion == |s'.repo.versions[q.taskId]| == |s.repo.versions[q.taskId]| + 1
                 && s'.repo.tasks[q.taskId].content == Patched(head.content, q.patch)
                 && s'.repo.versions[q.taskId][|s.repo.versions[q.taskId]|].parent == Some(q.base)
  {
    ApplyAppendsOrRejects(s.repo, q.ws, q.taskId, q.patch, Some(q.base), Some(q.mutationId), Some(q.message));
    var head := s.repo.tasks[q.taskId];
    if ScopeIsNone(head.content, Patched(head.content, q.patch), code) {
      NoneMeansNoEffect(head.content, q.patch, code);
    }
  }

  /** Exactly then: a message that was applied directly before is answered from the record, and the version its
      mutation announces is never made. */
  lemma AnnouncedVersionMadeIff(s: Store, q: MutateRequest, code: Option<Id> -> Id)
    requires Consistent(s.repo) && Visible(s.repo, q.ws, q.taskId).Some? && s.repo.tasks[q.taskId].version == q.base
    requires MessageKey(q.taskId, q.message) !in s.mutations
    requires !ScopeIsNone(s.repo.tasks[q.taskId].content, Patched(s.repo.tasks[q.taskId].content, q.patch), code)
    ensures var (s', res) := MutateStep(s, q, true, code);
            res.Success?
            && (res.value.0.targetVersion == |s'.repo.versions[q.taskId]| <==>
                MessageKey(q.taskId, q.message) !in s.repo.applied)
  {
    ApplyAppendsOrRejects(s.repo, q.ws, q.taskId, q.patch, Some(q.base), Some(q.mutationId), Some(q.message));
    assert Headed(s.repo.tasks[q.taskId], s.repo.versions[q.taskId]);
  }

  /** How it comes about: a patch applied under a message, then a mutation with that message on the new head. */
  lemma AppliedThenMutated(s: Store, e: Event, q: MutateRequest, code: Option<Id> -> Id)
    requires Consistent(s.repo) && e.Apply? && Visible(s.repo, e.ws, e.taskId).Some? && e.base.None?
    requires e.message == Some(q.message) && MessageKey(e.taskId, q.message) !in s.repo.applied
    requires MessageKey(e.taskId, q.message) !in s.mutations && q.ws == e.ws && q.taskId == e.taskId
    requires q.base == s.repo.tasks[e.taskId].version + 1
    requires var c := Patched(s.repo.tasks[e.taskId].content, e.patch); !ScopeIsNone(c, Patched(c, q.patch), code)
    ensures var s1 := Step(s, e);
            var (s2, res) := MutateStep(s1, q, true, code);
            res.Success? && res.value.0.targetVersion == q.base + 1
            && q.taskId in s2.repo.versions && |s2.repo.versions[q.taskId]| == q.base
  {
    hide ScopeIsNone, Patched;
    ApplyAppendsOrRejects(s.repo, e.ws, e.taskId, e.patch, e.base, e.mutationId, e.message);
    ApplyKeeps(s.repo, e.ws, e.taskId, e.patch, e.base, e.mutationId, e.message);
    AnnouncedVersionMadeIff(Step(s, e), q, code);
  }

  /** Such a history: a new task, a target of 3 applied under message 8, then a target of 9 under the same message. The
      mutation announces version 3, and the task stays at version 2. */
  lemma AnnouncedVersionMissing(code: Option<Id> -> Id)
    ensures var target := (n: int) => Patch(None, None, Some(n), [], None, None);
            var es := [Create(1, 2, None, 5), Apply(1, 5, target(3), None, None, Some(8)),
                       Mutate(MutateRequest(1, 5, 2, 8, target(9), 4), true, code)];
            LegalRun(es) && MutateResult(es, 2).Success? && MutateResult(es, 2).value.0.targetVersion == 3
            && 5 in Exec(es).repo.versions && |Exec(es).repo.versions[5]| == 2
  {
    var target := (n: int) => Patch(None, None, Some(n), [], None, None);
    var create, apply := Create(1, 2, None, 5), Apply(1, 5, target(3), None, None, Some(8));
    var q := MutateRequest(1, 5, 2, 8, target(9), 4);
    var s1 := Step(EMPTY_STORE, create);
    FirstTask(1, 2, 5);
    TwoTargetsDiffer(code);
    hide CreateStep, ApplyStep, MutateStep, Consistent, Patched, ScopeIsNone;
    ThreeSteps(create, apply, Mutate(q, true, code));
    AppliedThenMutated(s1, apply, q, code);
  }

  lemma FirstTask(ws: Id, session: Id, freshId: Id)
    ensures var r := CreateStep(EMPTY_REPO, ws, session, None, freshId).0;
            Consistent(r) && r.tasks == map[freshId := NewTask(ws, session, None, freshId)] && r.applied == map[]
  {
    CreateKeeps(EMPTY_REPO, ws, session, None, freshId);
  }

  lemma TwoTargetsDiffer(code: Option<Id> -> Id)
    ensures var target := (n: int) => Patch(None, None, Some(n), [], None, None);
            var c := Patched(NO_CONTENT, target(3));
            !ScopeIsNone(c, Patched(c, target(9)), code)
  {
  }

  lemma ThreeSteps(a: Event, b: Event, c: Event)
    ensures var es := [a, b, c];
            && Exec(es[..0]) == EMPTY_STORE && Exec(es[..1]) == Step(EMPTY_STORE, a)
            && Exec(es[..2]) == Step(Step(EMPTY_STORE, a), b) && Exec(es) == Step(Step(Step(EMPTY_STORE, a), b), c)
  {
    hide Step;
    var es := [a, b, c];
    assert es[..0] == [] && es[..1] == [a] && es[..2] == [a, b];
    assert [a][..0] == [] && [a, b][..1] == [a] && es[..|es| - 1] == [a, b];
  }

  // ---------------------------------------------------------------------------------------------
  // Which mutations make a version

  /** At most one constraint per field in every task. */
  ghost predicate FieldsUnique(r: Repo) {
    forall id <- r.tasks :: UniqueFields(r.tasks[id].content.constraints)
  }

  lemma ApplyKeepsFieldsUnique(r: Repo, ws: Id, taskId: Id, p: Patch, base: Option<int>, mutationId: Option<Id>,
                               message: Option<Id>)
    requires Consistent(r) && FieldsUnique(r)
    ensures FieldsUnique(ApplyStep(r, ws, taskId, p, base, mutationId, message).0)
  {
    hide UniqueFields, PatchedConstraints;
    if Visible(r, ws, taskId).Some? {
      PatchKeepsUniqueFields(r.tasks[taskId].content.constraints, p.constraints);
    }
  }

  lemma StepKeepsFieldsUnique(s: Store, e: Event)
    requires Consistent(s.repo) && FieldsUnique(s.repo)
    ensures FieldsUnique(Step(s, e).repo)
  {
    hide ApplyStep, ScopeIsNone;
    match e
    case Create(_, _, _, _) =>
    case Apply(ws, taskId, p, base, mutationId, message) =>
      ApplyKeepsFieldsUnique(s.repo, ws, taskId, p, base, mutationId, message);
    case SetStatus(_, _, _, _) =>
    case Mutate(q, _, _) =>
      ApplyKeepsFieldsUnique(s.repo, q.ws, q.taskId, q.patch, Some(q.base), Some(q.mutationId), Some(q.message));
  }

  lemma {:induction false} HistoryKeepsFieldsUnique(es: seq<Event>)
    requires LegalRun(es)
    ensures FieldsUnique(Exec(es).repo)
  {
    hide Step, Legal, Consistent;
    if es != [] {
      hide FieldsUnique;
      var front := es[..|es| - 1];
      PrefixIsLegal(es, |es| - 1);
      HistoryKeepsFieldsUnique(front);
      HistoryIsConsistent(front);
      StepKeepsFieldsUnique(Exec(front), es[|es| - 1]);
    }
  }

  /** In every history, a mutation on the head under a new message makes a version exactly when its patch asks for
      something the task does not have already. */
  lemma MutationMakesVersionIff(es: seq<Event>, q: MutateRequest, code: Option<Id> -> Id)
    requires LegalRun(es)
    requires var s := Exec(es);
             && Visible(s.repo, q.ws, q.taskId).Some? && s.repo.tasks[q.taskId].version == q.base
             && MessageKey(q.taskId, q.message) !in s.mutations && MessageKey(q.taskId, q.message) !in s.repo.applied
    ensures var s := Exec(es);
            var s' := MutateStep(s, q, true, code).0;
            && q.taskId in s.repo.versions && q.taskId in s'.repo.versions
            && (|s'.repo.versions[q.taskId]| == |s.repo.versions[q.taskId]| + 1
                <==> !AsksForNothing(s.repo.tasks[q.taskId].content, q.patch))
            && (s'.repo == s.repo <==> AsksForNothing(s.repo.tasks[q.taskId].content, q.patch))
  {
    hide Exec, LegalRun, Patched, AsksForNothing, Headed, ApplyStep;
    var s := Exec(es);
    HistoryIsConsistent(es);
    HistoryKeepsFieldsUnique(es);
    NoneIffAsksForNothing(s.repo.tasks[q.taskId].content, q.patch, code);
    MutationMakesAnnouncedVersion(s, q, code);
    MutateKeeps(s, q, true, code);
  }

  // ---------------------------------------------------------------------------------------------
  // Creation, status and refusals

  /** The message created this task of the session. */
  ghost predicate CreatedAs(r: Repo, k: CreateKey, id: Id) {
    Get(r.created, k) == Some(id) && id in r.tasks && r.tasks[id].taskId == id
    && r.tasks[id].workspaceId == k.session.workspaceId && r.tasks[id].sessionId == k.session.sessionId
  }

  /** A session's first creation under a message makes a task of its own, at version 1 and without content, and puts the
      session on it; a repeated one changes nothing. */
  lemma CreateAnswers(r: Repo, ws: Id, session: Id, message: Option<Id>, freshId: Id)
    requires freshId !in r.tasks
    ensures var (r', t) := CreateStep(r, ws, session, message, freshId);
            if message.Some? && CreateKey(Session(ws, session), message.value) in r.created then r' == r
            else
              && t.Some? && t.value.taskId == freshId && t.value.workspaceId == ws && t.value.sessionId == session
              && t.value.version == 1 && t.value.content == NO_CONTENT && t.value.sourceMessage == message
              && r'.tasks == r.tasks[freshId := t.value] && Get(r'.activeTask, Session(ws, session)) == Some(freshId)
              && r'.versions == r.versions[freshId := [TaskVersion(freshId, 1, None, NO_CONTENT, message, None)]]
              && (message.Some? ==> CreatedAs(r', CreateKey(Session(ws, session), message.value), freshId))
  {
  }

  lemma ApplyKeepsCreated(r: Repo, ws: Id, taskId: Id, p: Patch, base: Option<int>, mutationId: Option<Id>,
                          message: Option<Id>, k: CreateKey, id: Id)
    requires Consistent(r) && CreatedAs(r, k, id)
    ensures CreatedAs(ApplyStep(r, ws, taskId, p, base, mutationId, message).0, k, id)
  {
    hide Patched, FindVersion, Headed;
  }

  lemma StepKeepsCreated(s: Store, e: Event, k: CreateKey, id: Id)
    requires Consistent(s.repo) && Legal(s, e) && CreatedAs(s.repo, k, id)
    ensures CreatedAs(Step(s, e).repo, k, id)
  {
    hide ApplyStep, ScopeIsNone, Patched, Headed;
    match e
    case Create(_, _, _, _) =>
    case Apply(ws, taskId, p, base, mutationId, message) =>
      ApplyKeepsCreated(s.repo, ws, taskId, p, base, mutationId, message, k, id);
    case SetStatus(_, _, _, _) =>
    case Mutate(q, _, _) =>
      ApplyKeepsCreated(s.repo, q.ws, q.taskId, q.patch, Some(q.base), Some(q.mutationId), Some(q.message), k, id);
  }

  lemma {:induction false} CreatedStays(es: seq<Event>, n: nat, k: CreateKey, id: Id)
    requires LegalRun(es) && n <= |es| && CreatedAs(Exec(es[..n]).repo, k, id)
    ensures CreatedAs(Exec(es).repo, k, id)
  {
    hide Step, Legal, CreatedAs, Consistent;
    if n == |es| {
      assert es[..n] == es;
    } else {
      var front := es[..|es| - 1];
      assert front[..n] == es[..n];
      PrefixIsLegal(es, |es| - 1);
      CreatedStays(front, n, k, id);
      HistoryIsConsistent(front);
      assert Legal(Exec(front), es[|es| - 1]);
      StepKeepsCreated(Exec(front), es[|es| - 1], k, id);
    }
  }

  ghost function CreateResult(es: seq<Event>, i: nat): Option<Task>
    requires i < |es| && es[i].Create?
  {
    CreateStep(Exec(es[..i]).repo, es[i].ws, es[i].session, es[i].createMessage, es[i].freshId).1
  }

  /** Creating again under the same message of a session, whatever happened in between, changes nothing and answers with
      the head of the task that the first one answered with. */
  lemma CreateReplay(es: seq<Event>, i: nat, j: nat)
    requires LegalRun(es) && i < j < |es| && es[i].Create? && es[j].Create? && es[i].createMessage.Some?
    requires es[i].ws == es[j].ws && es[i].session == es[j].session && es[i].createMessage == es[j].createMessage
    requires CreateKey(Session(es[i].ws, es[i].session), es[i].createMessage.value) !in Exec(es[..i]).repo.created
    ensures Step(Exec(es[..j]), es[j]) == Exec(es[..j])
    ensures CreateResult(es, i).Some? && CreateResult(es, i).value.taskId in Exec(es[..j]).repo.tasks
    ensures CreateResult(es, j) == Some(Exec(es[..j]).repo.tasks[CreateResult(es, i).value.taskId])
  {
    var e := es[i];
    var k := CreateKey(Session(e.ws, e.session), e.createMessage.value);
    assert Legal(Exec(es[..i]), e);
    CreateAnswers(Exec(es[..i]).repo, e.ws, e.session, e.createMessage, e.freshId);
    assert es[..i + 1][..i] == es[..i] && es[..j][..i + 1] == es[..i + 1];
    assert Exec(es[..i + 1]) == Step(Exec(es[..i]), e);
    hide Exec, LegalRun;
    PrefixIsLegal(es, j);
    CreatedStays(es[..j], i + 1, k, e.freshId);
  }

  /** A status change touches stage and status alone, makes no version, and puts the session on the task. */
  lemma SetStatusAnswers(r: Repo, ws: Id, taskId: Id, stage: Option<Id>, status: Option<Id>)
    requires Consistent(r)
    ensures var (r', res) := SetStatusStep(r, ws, taskId, stage, status);
            if taskId !in r.tasks || r.tasks[taskId].workspaceId != ws then r' == r && res == Failure(NotFound)
            else
              var head := r.tasks[taskId];
              && res.Success? && r'.tasks == r.tasks[taskId := res.value] && r'.versions == r.versions
              && res.value.content == head.content && res.value.version == head.version && res.value.taskId == taskId
              && res.value.stage == (if stage.Some? then stage.value else head.stage)
              && res.value.status == (if status.Some? then status.value else head.status)
              && Get(r'.activeTask, Session(ws, head.sessionId)) == Some(taskId)
  {
    hide Headed;
  }

  /** What a mutation under a new message is refused for, in this order; a refused one changes nothing. */
  lemma MutationRefusals(s: Store, q: MutateRequest, accepted: bool, code: Option<Id> -> Id)
    requires Consistent(s.repo) && MessageKey(q.taskId, q.message) !in s.mutations
    ensures var (s', res) := MutateStep(s, q, accepted, code);
            var known := q.taskId in s.repo.tasks && s.repo.tasks[q.taskId].workspaceId == q.ws;
            && (res.Success? <==> accepted && known && s.repo.tasks[q.taskId].version == q.base)
            && (res.Failure? ==> s' == s)
            && (res == Failure(InvalidPatch) <==> !accepted)
            && (res == Failure(NotFound) <==> accepted && !known)
  {
    ApplyAppendsOrRejects(s.repo, q.ws, q.taskId, q.patch, Some(q.base), Some(q.mutationId), Some(q.message));
    hide ApplyStep, ScopeIsNone, Patched, Consistent;
  }

  /** A version number is recorded once: storing a head under a recorded number leaves the history as it is. */
  lemma RecordedOnce(r: Repo, t: Task, v: TaskVersion)
    requires t.taskId in r.versions
    ensures var vs := r.versions[t.taskId];
            && StoredVersion(r, t, v).versions[t.taskId]
               == (if exists recorded <- vs :: recorded.version == t.version then vs else vs + [v])
            && StoredVersion(r, t, v).tasks == r.tasks[t.taskId := t]
  {
    FindVersionIff(r.versions[t.taskId], t.version);
  }

  lemma {:induction false} FindVersionIff(vs: seq<TaskVersion>, version: int)
    ensures FindVersion(vs, version).Some? <==> exists v <- vs :: v.version == version
    ensures FindVersion(vs, version).Some? ==> FindVersion(vs, version).value in vs && FindVersion(vs, version).value.version == version
  {
    if vs != [] {
      FindVersionIff(vs[1..], version);
      assert vs == [vs[0]] + vs[1..];
    }
  }
}
