/**
 The in-memory task store: tasks keyed by id in creation order, plus an
 append-only log of status changes. Every operation is a function from the
 old store to the new store and the value the repository method returns.
 */
module MemoryTaskRepo {
  import opened Common
  import opened TaskRepo
  import Stores

  datatype Repo = Repo(tasks: Stores.Store<Task>, history: seq<TaskStatusHistory>)

  /** The fields of a new task; the store adds the id and both timestamps. */
  datatype TaskInput = TaskInput(
    projectId: Id,
    title: string,
    description: Option<string>,
    assigneeId: Option<Id>,
    priority: TaskPriority,
    status: TaskStatus,
    dueDate: Option<Timestamp>)

  /** A partial update: `Some` for every supplied field. */
  datatype TaskPatch = TaskPatch(
    projectId: Option<Id>,
    title: Option<string>,
    description: Option<string>,
    assigneeId: Option<Id>,
    priority: Option<TaskPriority>,
    status: Option<TaskStatus>,
    dueDate: Option<Timestamp>)

  /** What a successful status change returns: the updated task and its new history entry. */
  datatype StatusChange = StatusChange(task: Task, history: TaskStatusHistory)

  /** The store invariant, and every task is stored under its own id. */
  ghost predicate Valid(r: Repo) {
    && Stores.Valid(r.tasks)
    && forall id :: id in r.tasks.items ==> r.tasks.items[id].id == id
  }

  function Empty(): (r: Repo)
    ensures Valid(r)
    ensures Stores.List(r.tasks) == [] && r.history == []
  {
    Repo(Stores.Empty(), [])
  }

  /** The live tasks of one project, in creation order. */
  function ListByProject(r: Repo, projectId: Id): seq<Task> {
    Filter(Stores.List(r.tasks), KeyIs(TaskProject, projectId))
  }

  function GetById(r: Repo, id: Id): Option<Task> {
    Stores.Get(r.tasks, id)
  }

  /** The history entries of one task, in the order they were appended. */
  function ListStatusHistory(r: Repo, taskId: Id): seq<TaskStatusHistory> {
    Filter(r.history, KeyIs(HistoryTask, taskId))
  }

  /** `task` holds exactly the input's fields. */
  ghost predicate FromInput(task: Task, input: TaskInput) {
    && task.projectId == input.projectId
    && task.title == input.title
    && task.description == input.description
    && task.assigneeId == input.assigneeId
    && task.priority == input.priority
    && task.status == input.status
    && task.dueDate == input.dueDate
  }

  /** `now` is `was` with the patch's supplied fields written over it; id and creation time are kept. */
  ghost predicate Patched(was: Task, patch: TaskPatch, now: Task) {
    && now.id == was.id
    && now.createdAt == was.createdAt
    && Overlaid(patch.projectId, was.projectId, now.projectId)
    && Overlaid(patch.title, was.title, now.title)
    && OverlaidOptional(patch.description, was.description, now.description)
    && OverlaidOptional(patch.assigneeId, was.assigneeId, now.assigneeId)
    && Overlaid(patch.priority, was.priority, now.priority)
    && Overlaid(patch.status, was.status, now.status)
    && OverlaidOptional(patch.dueDate, was.dueDate, now.dueDate)
  }

  /** Creates a task under the fresh id `id` at time `now`. */
  function Create(r: Repo, input: TaskInput, id: Id, now: Timestamp): (s: Step<Repo, Task>)
    requires id !in r.tasks.items
    ensures s.result.id == id && s.result.createdAt == now && s.result.updatedAt == now
    ensures FromInput(s.result, input)
    ensures GetById(s.repo, id) == Some(s.result)
    ensures forall k :: k != id ==> GetById(s.repo, k) == GetById(r, k)
    ensures Valid(r) ==> Valid(s.repo)
    ensures Valid(r) ==> Stores.List(s.repo.tasks) == Stores.List(r.tasks) + [s.result]
    ensures s.repo.history == r.history
  {
    var task := Task(id, input.projectId, input.title, input.description, input.assigneeId,
                     input.priority, input.status, input.dueDate, now, now);
    Step(Repo(Stores.Insert(r.tasks, id, task), r.history), task)
  }

  /** Applies a partial update at time `now`; `None` when there is no task `id`. */
  function Update(r: Repo, id: Id, patch: TaskPatch, now: Timestamp): (s: Step<Repo, Option<Task>>)
    ensures id !in r.tasks.items ==> s.result == None && s.repo == r
    ensures id in r.tasks.items ==>
      && s.result.Some?
      && Patched(r.tasks.items[id], patch, s.result.value)
      && s.result.value.updatedAt == now
      && GetById(s.repo, id) == s.result
    ensures forall k :: k != id ==> GetById(s.repo, k) == GetById(r, k)
    ensures s.repo.tasks.order == r.tasks.order
    ensures s.repo.history == r.history
    ensures Valid(r) ==> Valid(s.repo)
  {
    if id !in r.tasks.items then Step(r, None)
    else
      var t := r.tasks.items[id];
      var updated := t.(
        projectId := patch.projectId.GetOr(t.projectId),
        title := patch.title.GetOr(t.title),
        description := patch.description.Or(t.description),
        assigneeId := patch.assigneeId.Or(t.assigneeId),
        priority := patch.priority.GetOr(t.priority),
        status := patch.status.GetOr(t.status),
        dueDate := patch.dueDate.Or(t.dueDate),
        updatedAt := now);
      Step(Repo(Stores.Put(r.tasks, id, updated), r.history), Some(updated))
  }

  /** Deletes task `id` and its whole status history; `false` when there is no such task. */
  function Delete(r: Repo, id: Id): (s: Step<Repo, bool>)
    ensures s.result <==> id in r.tasks.items
    ensures !s.result ==> s.repo == r
    ensures GetById(s.repo, id) == None
    ensures forall k :: k != id ==> GetById(s.repo, k) == GetById(r, k)
    ensures s.result ==> ListStatusHistory(s.repo, id) == []
    ensures forall t :: t != id ==> ListStatusHistory(s.repo, t) == ListStatusHistory(r, t)
    ensures Valid(r) ==> Valid(s.repo)
  {
    if id !in r.tasks.items then Step(r, false)
    else
      DroppingKey(r.history, HistoryTask, id);
      Step(Repo(Stores.Remove(r.tasks, id), Filter(r.history, KeyIsNot(HistoryTask, id))), true)
  }

  /**
   Sets the status of task `id`, stamping it with `now`, and appends one
   history entry (with id `historyId`, stamped `changedAt`) recording the old
   and the new status and who changed it; `None`, and no entry, when there is
   no such task. The two stamps are separate clock reads in the repository.
   */
  function UpdateStatus(r: Repo, id: Id, toStatus: TaskStatus, changedByUserId: Id,
                        historyId: Id, now: Timestamp, changedAt: Timestamp): (s: Step<Repo, Option<StatusChange>>)
    ensures id !in r.tasks.items ==> s.result == None && s.repo == r
    ensures id in r.tasks.items ==>
      var was := r.tasks.items[id];
      && s.result.Some?
      && s.result.value.task == was.(status := toStatus, updatedAt := now)
      && s.result.value.history == TaskStatusHistory(historyId, id, was.status, toStatus, changedByUserId, changedAt)
      && s.repo.history == r.history + [s.result.value.history]
      && GetById(s.repo, id) == Some(s.result.value.task)
    ensures forall k :: k != id ==> GetById(s.repo, k) == GetById(r, k)
    ensures s.repo.tasks.order == r.tasks.order
    ensures Valid(r) ==> Valid(s.repo)
  {
    if id !in r.tasks.items then Step(r, None)
    else
      var was := r.tasks.items[id];
      var updated := was.(status := toStatus, updatedAt := now);
      var entry := TaskStatusHistory(historyId, id, was.status, toStatus, changedByUserId, changedAt);
      Step(Repo(Stores.Put(r.tasks, id, updated), r.history + [entry]), Some(StatusChange(updated, entry)))
  }

  /** Creating a task appends it to its own project's listing and leaves every other project's listing alone. */
  lemma {:induction false} CreateAppendsToProjectListing(r: Repo, input: TaskInput, id: Id, now: Timestamp, projectId: Id)
    requires Valid(r)
    requires id !in r.tasks.items
    ensures var s := Create(r, input, id, now);
      ListByProject(s.repo, projectId) ==
        ListByProject(r, projectId) + (if input.projectId == projectId then [s.result] else [])
  {
    var s := Create(r, input, id, now);
    FilterConcat(Stores.List(r.tasks), [s.result], KeyIs(TaskProject, projectId));
    assert [s.result][1..] == [];
  }

  /** `t` is the task stored under its own id. */
  ghost predicate Stored(r: Repo, t: Task) {
    t.id in r.tasks.items && r.tasks.items[t.id] == t
  }

  /** A task is in a project's listing exactly when it is stored under its id and belongs to the project. */
  lemma ListingIsStored(r: Repo, projectId: Id)
    requires Valid(r)
    ensures forall t :: t in ListByProject(r, projectId) <==> Stored(r, t) && t.projectId == projectId
  {
    LiveTasksListed(r, projectId);
    ListedTasksLive(r, projectId);
  }

  /** A project's listing never holds the same task twice: the stored tasks have distinct ids. */
  lemma ListingHasNoDuplicates(r: Repo, projectId: Id)
    requires Valid(r)
    ensures NoDup(ListByProject(r, projectId))
  {
    var l := Stores.List(r.tasks);
    Stores.ListHoldsOnlyRecords(r.tasks);
    forall i, j | 0 <= i < j < |l| ensures l[i] != l[j] {
      assert l[i].id == r.tasks.order[i] && l[j].id == r.tasks.order[j];
    }
    FilterKeepsNoDup(l, KeyIs(TaskProject, projectId));
  }

  /** The ids of `tasks`, in order. */
  function IdsOf(tasks: seq<Task>): seq<Id> {
    seq(|tasks|, k requires 0 <= k < |tasks| => tasks[k].id)
  }

  /** Distinct tasks each stored under its own id have distinct ids. */
  lemma StoredIdsDistinct(tasks: seq<Task>, items: map<Id, Task>)
    requires NoDup(tasks)
    requires forall t :: t in tasks ==> t.id in items && items[t.id] == t
    ensures |IdsOf(tasks)| == |tasks|
    ensures NoDup(IdsOf(tasks))
  {
    var ids := IdsOf(tasks);
    forall a, b | 0 <= a < b < |ids| ensures ids[a] != ids[b] {
      assert tasks[a] in tasks && tasks[b] in tasks;
    }
  }

  /** The ids of the stored tasks of project `projectId` that satisfy `keep`. */
  function StoredOf(r: Repo, projectId: Id, keep: Task -> bool): set<Id> {
    set id | id in r.tasks.items && r.tasks.items[id].projectId == projectId && keep(r.tasks.items[id])
  }

  /** Counting a project's listing counts each stored task of the project exactly once. */
  lemma ListingCount(r: Repo, projectId: Id, keep: Task -> bool)
    requires Valid(r)
    ensures Count(ListByProject(r, projectId), keep) == |StoredOf(r, projectId, keep)|
  {
    ListingHasNoDuplicates(r, projectId);
    ListingIsStored(r, projectId);
    CountDistinctStored(ListByProject(r, projectId), r.tasks.items, keep, StoredOf(r, projectId, keep));
  }

  /**
   Counting distinct tasks, each stored under its own id, counts the ids of
   the stored tasks among them that satisfy `keep`.
   */
  lemma CountDistinctStored(tasks: seq<Task>, items: map<Id, Task>, keep: Task -> bool, ids: set<Id>)
    requires NoDup(tasks)
    requires forall id :: id in items ==> items[id].id == id
    requires forall t :: t in tasks ==> t.id in items && items[t.id] == t
    requires forall id :: id in ids <==> id in items && items[id] in tasks && keep(items[id])
    ensures Count(tasks, keep) == |ids|
  {
    var f := Filter(tasks, keep);
    FilterKeepsNoDup(tasks, keep);
    FilterMembers(tasks, keep);
    var fids := IdsOf(f);
    StoredIdsDistinct(f, items);
    forall id | id in fids ensures id in ids {
      var k :| 0 <= k < |fids| && fids[k] == id;
      assert f[k] in tasks && keep(f[k]);
    }
    forall id | id in ids ensures id in fids {
      var t := items[id];
      assert t.id == id;
      var j :| 0 <= j < |tasks| && tasks[j] == t;
      assert keep(tasks[j]);
      var k :| 0 <= k < |f| && f[k] == t;
      assert fids[k] == id;
    }
    assert (set x | x in fids) == ids;
    NoDupCard(fids);
  }

  /** Every stored task of the project appears in the project's listing. */
  lemma LiveTasksListed(r: Repo, projectId: Id)
    requires Stores.Valid(r.tasks)
    ensures forall id :: id in r.tasks.items && r.tasks.items[id].projectId == projectId ==>
      r.tasks.items[id] in ListByProject(r, projectId)
  {
    var l := Stores.List(r.tasks);
    FilterMembers(l, KeyIs(TaskProject, projectId));
    forall id | id in r.tasks.items && r.tasks.items[id].projectId == projectId
      ensures r.tasks.items[id] in ListByProject(r, projectId)
    {
      Stores.ListedAt(r.tasks, id);
      var k := Stores.IndexOf(r.tasks.order, id);
      assert l[k] == r.tasks.items[id] && TaskProject(l[k]) == projectId;
      assert KeyIs(TaskProject, projectId)(l[k]);
    }
  }

  /** Every task in the project's listing belongs to the project and is the one stored under its id. */
  lemma ListedTasksLive(r: Repo, projectId: Id)
    requires Valid(r)
    ensures forall t :: t in ListByProject(r, projectId) ==>
      t.projectId == projectId && GetById(r, t.id) == Some(t)
  {
    var l := Stores.List(r.tasks);
    Stores.ListHoldsOnlyRecords(r.tasks);
    FilterMembers(l, KeyIs(TaskProject, projectId));
    forall t | t in ListByProject(r, projectId)
      ensures t.projectId == projectId && GetById(r, t.id) == Some(t)
    {
      var j :| 0 <= j < |ListByProject(r, projectId)| && ListByProject(r, projectId)[j] == t;
      assert KeyIs(TaskProject, projectId)(t);
      var i :| 0 <= i < |l| && l[i] == t;
      assert l[i] == r.tasks.items[r.tasks.order[i]];
    }
  }

  /** A status change appends its entry to the changed task's history and leaves every other task's history alone. */
  lemma {:induction false} UpdateStatusAppendsHistory(r: Repo, id: Id, toStatus: TaskStatus, changedByUserId: Id,
                                                      historyId: Id, now: Timestamp, changedAt: Timestamp, t: Id)
    requires id in r.tasks.items
    ensures var s := UpdateStatus(r, id, toStatus, changedByUserId, historyId, now, changedAt);
      ListStatusHistory(s.repo, t) ==
        ListStatusHistory(r, t) + (if t == id then [s.result.value.history] else [])
  {
    var s := UpdateStatus(r, id, toStatus, changedByUserId, historyId, now, changedAt);
    var e := s.result.value.history;
    FilterConcat(r.history, [e], KeyIs(HistoryTask, t));
    assert [e][1..] == [];
    assert e.taskId == id;
    assert HistoryTask(e) == id;
    assert KeyIs(HistoryTask, t)(e) == (HistoryTask(e) == t);
  }

  /** One requested status change: the new status, who made it, the history entry's id and the two clock reads. */
  datatype StatusCommand = StatusCommand(toStatus: TaskStatus, changedByUserId: Id, historyId: Id, at: Timestamp, changedAt: Timestamp)

  /** Runs the status changes in order against task `id`. */
  function ApplyStatusCommands(r: Repo, id: Id, cmds: seq<StatusCommand>): Repo
    decreases |cmds|
  {
    if |cmds| == 0 then r
    else
      var c := cmds[0];
      ApplyStatusCommands(UpdateStatus(r, id, c.toStatus, c.changedByUserId, c.historyId, c.at, c.changedAt).repo, id, cmds[1..])
  }

  /** The status an entry records as the previous one: the task's status before the first change, then the previous change's target. */
  function PriorStatus(initial: TaskStatus, cmds: seq<StatusCommand>, i: nat): TaskStatus
    requires i < |cmds|
  {
    if i == 0 then initial else cmds[i - 1].toStatus
  }

  /** `entries` record the commands in order against task `id`, starting from status `initial`. */
  ghost predicate RecordsCommands(id: Id, initial: TaskStatus, cmds: seq<StatusCommand>, entries: seq<TaskStatusHistory>) {
    && |entries| == |cmds|
    && forall i :: 0 <= i < |cmds| ==>
         && entries[i].taskId == id
         && entries[i].fromStatus == PriorStatus(initial, cmds, i)
         && entries[i].toStatus == cmds[i].toStatus
         && entries[i].changedByUserId == cmds[i].changedByUserId
  }

  lemma RecordsCommandsCons(id: Id, initial: TaskStatus, cmds: seq<StatusCommand>,
                            first: TaskStatusHistory, rest: seq<TaskStatusHistory>)
    requires |cmds| > 0
    requires first.taskId == id && first.fromStatus == initial
    requires first.toStatus == cmds[0].toStatus && first.changedByUserId == cmds[0].changedByUserId
    requires RecordsCommands(id, cmds[0].toStatus, cmds[1..], rest)
    ensures RecordsCommands(id, initial, cmds, [first] + rest)
  {
    var entries := [first] + rest;
    forall i | 1 <= i < |cmds|
      ensures && entries[i].taskId == id
              && entries[i].fromStatus == PriorStatus(initial, cmds, i)
              && entries[i].toStatus == cmds[i].toStatus
              && entries[i].changedByUserId == cmds[i].changedByUserId
    {
      assert entries[i] == rest[i - 1];
      assert cmds[1..][i - 1] == cmds[i];
      assert PriorStatus(cmds[0].toStatus, cmds[1..], i - 1) == PriorStatus(initial, cmds, i);
    }
  }

  /**
   N status changes on an existing task append exactly N entries to its
   history, in call order, each recording the status it replaced, the new
   status and who changed it; the task ends in the last requested status.
   */
  lemma {:induction false} StatusHistoryRecordsEveryChange(r: Repo, id: Id, cmds: seq<StatusCommand>)
    requires id in r.tasks.items
    decreases |cmds|
    ensures var r' := ApplyStatusCommands(r, id, cmds);
      var before, after := ListStatusHistory(r, id), ListStatusHistory(r', id);
      && id in r'.tasks.items
      && |after| == |before| + |cmds|
      && after[..|before|] == before
      && RecordsCommands(id, r.tasks.items[id].status, cmds, after[|before|..])
      && r'.tasks.items[id].status == (if |cmds| == 0 then r.tasks.items[id].status else cmds[|cmds| - 1].toStatus)
  {
    StatusCommandsEndIn(r, id, cmds);
    var r' := ApplyStatusCommands(r, id, cmds);
    var before, after := ListStatusHistory(r, id), ListStatusHistory(r', id);
    if |cmds| == 0 {
      assert after[|before|..] == [];
    } else {
      var c := cmds[0];
      var s := UpdateStatus(r, id, c.toStatus, c.changedByUserId, c.historyId, c.at, c.changedAt);
      UpdateStatusAppendsHistory(r, id, c.toStatus, c.changedByUserId, c.historyId, c.at, c.changedAt, id);
      var r1 := s.repo;
      var e := s.result.value.history;
      assert Stores.Get(r1.tasks, id) == Some(s.result.value.task);
      StatusHistoryRecordsEveryChange(r1, id, cmds[1..]);
      assert r' == ApplyStatusCommands(r1, id, cmds[1..]);
      var mid := ListStatusHistory(r1, id);
      assert mid == before + [e];
      ExtendsPastOne(before, e, after);
      RecordsCommandsCons(id, r.tasks.items[id].status, cmds, e, after[|mid|..]);
    }
  }

  /** A run of status changes keeps the task and leaves it in the last requested status. */
  lemma {:induction false} StatusCommandsEndIn(r: Repo, id: Id, cmds: seq<StatusCommand>)
    requires id in r.tasks.items
    decreases |cmds|
    ensures var r' := ApplyStatusCommands(r, id, cmds);
      && id in r'.tasks.items
      && r'.tasks.items[id].status == (if |cmds| == 0 then r.tasks.items[id].status else cmds[|cmds| - 1].toStatus)
  {
    if |cmds| > 0 {
      var c := cmds[0];
      var r1 := UpdateStatus(r, id, c.toStatus, c.changedByUserId, c.historyId, c.at, c.changedAt).repo;
      assert Stores.Get(r1.tasks, id).Some?;
      StatusCommandsEndIn(r1, id, cmds[1..]);
      if |cmds| > 1 {
        assert cmds[1..][|cmds[1..]| - 1] == cmds[|cmds| - 1];
      }
    }
  }
}
