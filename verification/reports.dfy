/**
 The report service: three read-only passes over the project list, each
 project's task listing and the user list. The overdue report lists every
 task that has a due date before a threshold and is not DONE; the workload
 report counts each user's active tasks; the project-health report counts
 each project's tasks, DONE tasks and overdue tasks.
 */
module Reports {
  import opened Common
  import opened TaskRepo
  import Stores
  import MemoryTaskRepo
  import MemoryProjectRepo
  import MemoryUserRepo

  datatype OverdueItem = OverdueItem(
    taskId: Id,
    title: string,
    projectId: Id,
    dueDate: Option<Timestamp>,
    status: TaskStatus,
    assigneeId: Option<Id>)

  datatype WorkloadItem = WorkloadItem(userId: Id, userName: string, activeTasks: nat)

  datatype HealthItem = HealthItem(
    projectId: Id,
    projectName: string,
    projectStatus: MemoryProjectRepo.ProjectStatus,
    totalTasks: nat,
    overdueTasks: nat,
    doneTasks: nat)

  /** A task is overdue when it has a due date strictly before `threshold` and is not DONE. */
  predicate IsOverdue(t: Task, threshold: Timestamp) {
    t.dueDate.Some? && t.dueDate.value < threshold && t.status != Done
  }

  /** The predicate "overdue at `threshold`". */
  function OverdueAt(threshold: Timestamp): Task -> bool {
    (t: Task) => IsOverdue(t, threshold)
  }

  /** The predicate that holds of every task. */
  function AnyTask(t: Task): bool {
    true
  }

  /** The status of a task. */
  function StatusOf(t: Task): TaskStatus {
    t.status
  }

  /** The project an overdue item belongs to. */
  function ItemProject(item: OverdueItem): Id {
    item.projectId
  }

  /** The report line for task `t` found under project `projectId`. */
  function ItemOf(projectId: Id, t: Task): OverdueItem {
    OverdueItem(t.id, t.title, projectId, t.dueDate, t.status, t.assigneeId)
  }

  /** Some project of `ps` has id `id`. */
  ghost predicate ListsProject(ps: seq<MemoryProjectRepo.Project>, id: Id) {
    exists i :: 0 <= i < |ps| && ps[i].id == id
  }

  /** No two projects of `ps` share an id. */
  ghost predicate DistinctIds(ps: seq<MemoryProjectRepo.Project>) {
    forall i, j :: 0 <= i < j < |ps| ==> ps[i].id != ps[j].id
  }

  // ---------------------------------------------------------------------------
  // Overdue tasks
  // ---------------------------------------------------------------------------

  /** The overdue items among one project's tasks, in the tasks' order (the inner loop). */
  function OverdueIn(projectId: Id, tasks: seq<Task>, threshold: Timestamp): (items: seq<OverdueItem>)
    ensures |items| <= |tasks|
    ensures forall i :: 0 <= i < |items| ==>
      && items[i].projectId == projectId
      && items[i].dueDate.Some?
      && items[i].dueDate.value < threshold
      && items[i].status != Done
  {
    if |tasks| == 0 then []
    else
      (if IsOverdue(tasks[0], threshold) then [ItemOf(projectId, tasks[0])] else [])
      + OverdueIn(projectId, tasks[1..], threshold)
  }

  /** The overdue items of every project of `projects`, project by project (the outer loop). */
  function OverdueAcross(projects: seq<MemoryProjectRepo.Project>, tr: MemoryTaskRepo.Repo, threshold: Timestamp): seq<OverdueItem> {
    if |projects| == 0 then []
    else
      var n := |projects| - 1;
      OverdueAcross(projects[..n], tr, threshold)
      + OverdueIn(projects[n].id, MemoryTaskRepo.ListByProject(tr, projects[n].id), threshold)
  }

  /** Every report item belongs to a listed project, has a due date before the threshold and is not DONE. */
  lemma {:induction false} OverdueAcrossItems(projects: seq<MemoryProjectRepo.Project>, tr: MemoryTaskRepo.Repo, threshold: Timestamp)
    ensures forall i :: 0 <= i < |OverdueAcross(projects, tr, threshold)| ==>
      var item := OverdueAcross(projects, tr, threshold)[i];
      && ListsProject(projects, item.projectId)
      && item.dueDate.Some?
      && item.dueDate.value < threshold
      && item.status != Done
  {
    if |projects| > 0 {
      var n := |projects| - 1;
      var before := OverdueAcross(projects[..n], tr, threshold);
      var last := OverdueIn(projects[n].id, MemoryTaskRepo.ListByProject(tr, projects[n].id), threshold);
      OverdueAcrossItems(projects[..n], tr, threshold);
      ListsProjectGrows(projects, n);
      assert OverdueAcross(projects, tr, threshold) == before + last;
    }
  }

  /** The overdue report for threshold `threshold` (`getOverdueTasks`, with the threshold already computed). */
  function GetOverdueTasks(pr: MemoryProjectRepo.Repo, tr: MemoryTaskRepo.Repo, threshold: Timestamp): seq<OverdueItem> {
    OverdueAcross(MemoryProjectRepo.List(pr), tr, threshold)
  }

  /** A project listed in a prefix is listed in the whole sequence. */
  lemma ListsProjectGrows(ps: seq<MemoryProjectRepo.Project>, n: nat)
    requires n <= |ps|
    ensures forall id :: ListsProject(ps[..n], id) ==> ListsProject(ps, id)
    ensures n < |ps| ==> ListsProject(ps, ps[n].id)
  {
    forall id | ListsProject(ps[..n], id) ensures ListsProject(ps, id) {
      var i :| 0 <= i < n && ps[..n][i].id == id;
      assert ps[i].id == id;
    }
  }

  /** One project's overdue items are its overdue tasks, in order, each turned into a report line. */
  lemma {:induction false} OverdueInIsFilter(projectId: Id, tasks: seq<Task>, threshold: Timestamp)
    ensures |OverdueIn(projectId, tasks, threshold)| == Count(tasks, OverdueAt(threshold))
    ensures forall i :: 0 <= i < |OverdueIn(projectId, tasks, threshold)| ==>
      OverdueIn(projectId, tasks, threshold)[i] == ItemOf(projectId, Filter(tasks, OverdueAt(threshold))[i])
  {
    if |tasks| > 0 {
      OverdueInIsFilter(projectId, tasks[1..], threshold);
      assert OverdueAt(threshold)(tasks[0]) == IsOverdue(tasks[0], threshold);
    }
  }

  /** The report over two runs of projects is the report over the first followed by the report over the second. */
  lemma {:induction false} OverdueAcrossConcat(a: seq<MemoryProjectRepo.Project>, b: seq<MemoryProjectRepo.Project>,
                                               tr: MemoryTaskRepo.Repo, threshold: Timestamp)
    ensures OverdueAcross(a + b, tr, threshold) == OverdueAcross(a, tr, threshold) + OverdueAcross(b, tr, threshold)
    decreases |b|
  {
    if |b| == 0 {
      assert a + b == a;
    } else {
      var n := |b| - 1;
      assert (a + b)[..|a + b| - 1] == a + b[..n];
      OverdueAcrossConcat(a, b[..n], tr, threshold);
    }
  }

  /**
   Within the report, the items of each listed project are exactly that
   project's overdue tasks in the order its task listing gives them.
   */
  lemma {:induction false} ItemsOfProject(ps: seq<MemoryProjectRepo.Project>, tr: MemoryTaskRepo.Repo,
                                          threshold: Timestamp, k: nat)
    requires DistinctIds(ps)
    requires k < |ps|
    ensures Filter(OverdueAcross(ps, tr, threshold), KeyIs(ItemProject, ps[k].id)) ==
      OverdueIn(ps[k].id, MemoryTaskRepo.ListByProject(tr, ps[k].id), threshold)
  {
    var n := |ps| - 1;
    var pid := ps[k].id;
    var before := OverdueAcross(ps[..n], tr, threshold);
    var last := OverdueIn(ps[n].id, MemoryTaskRepo.ListByProject(tr, ps[n].id), threshold);
    FilterConcat(before, last, KeyIs(ItemProject, pid));
    DistinctPrefix(ps, n);
    if k == n {
      OverdueAcrossItems(ps[..n], tr, threshold);
      NoItemsOf(before, pid);
      AllItemsOf(last, pid);
    } else {
      assert ps[..n][k] == ps[k];
      ItemsOfProject(ps[..n], tr, threshold, k);
      NoItemsOf(last, pid);
    }
  }

  /** A prefix of projects with distinct ids has distinct ids and does not list the next project. */
  lemma DistinctPrefix(ps: seq<MemoryProjectRepo.Project>, n: nat)
    requires DistinctIds(ps)
    requires n < |ps|
    ensures DistinctIds(ps[..n])
    ensures !ListsProject(ps[..n], ps[n].id)
  {
    forall i, j | 0 <= i < j < n ensures ps[..n][i].id != ps[..n][j].id {
      assert ps[..n][i] == ps[i] && ps[..n][j] == ps[j];
    }
    forall i | 0 <= i < n ensures ps[..n][i].id != ps[n].id {
      assert ps[..n][i] == ps[i];
    }
  }

  /** Filtering items none of which belongs to `pid` by project `pid` leaves nothing. */
  lemma NoItemsOf(items: seq<OverdueItem>, pid: Id)
    requires forall i :: 0 <= i < |items| ==> items[i].projectId != pid
    ensures Filter(items, KeyIs(ItemProject, pid)) == []
  {
    FilterNone(items, KeyIs(ItemProject, pid));
  }

  /** Filtering items all of which belong to `pid` by project `pid` keeps them all. */
  lemma AllItemsOf(items: seq<OverdueItem>, pid: Id)
    requires forall i :: 0 <= i < |items| ==> items[i].projectId == pid
    ensures Filter(items, KeyIs(ItemProject, pid)) == items
  {
    FilterKeepsAll(items, KeyIs(ItemProject, pid));
  }

  /** Items of the projects before position `j` all come before the items of the projects from `j` on. */
  lemma ProjectsBeforeComeFirst(ps: seq<MemoryProjectRepo.Project>, tr: MemoryTaskRepo.Repo, threshold: Timestamp, j: nat)
    requires DistinctIds(ps)
    requires j <= |ps|
    ensures var items := OverdueAcross(ps, tr, threshold);
      var front := |OverdueAcross(ps[..j], tr, threshold)|;
      && front <= |items|
      && (forall a :: 0 <= a < front ==> !ListsProject(ps[j..], items[a].projectId))
      && (forall b :: front <= b < |items| ==> !ListsProject(ps[..j], items[b].projectId))
  {
    assert ps == ps[..j] + ps[j..];
    OverdueAcrossConcat(ps[..j], ps[j..], tr, threshold);
    DisjointSplit(ps, j);
    OverdueAcrossItems(ps[..j], tr, threshold);
    OverdueAcrossItems(ps[j..], tr, threshold);
    ConcatSeparates(OverdueAcross(ps[..j], tr, threshold), OverdueAcross(ps[j..], tr, threshold), ps[..j], ps[j..]);
  }

  /** Items of projects `a` followed by items of projects `b`, with no project in both, keep the two groups apart. */
  lemma ConcatSeparates(front: seq<OverdueItem>, back: seq<OverdueItem>,
                        a: seq<MemoryProjectRepo.Project>, b: seq<MemoryProjectRepo.Project>)
    requires forall i :: 0 <= i < |front| ==> ListsProject(a, front[i].projectId)
    requires forall i :: 0 <= i < |back| ==> ListsProject(b, back[i].projectId)
    requires forall id :: ListsProject(a, id) ==> !ListsProject(b, id)
    ensures forall x :: 0 <= x < |front| ==> !ListsProject(b, (front + back)[x].projectId)
    ensures forall y :: |front| <= y < |front + back| ==> !ListsProject(a, (front + back)[y].projectId)
  {
    var items := front + back;
    forall y | |front| <= y < |items| ensures !ListsProject(a, items[y].projectId) {
      assert items[y] == back[y - |front|];
    }
  }

  /** With distinct ids, no project id is listed both before and from position `j`. */
  lemma DisjointSplit(ps: seq<MemoryProjectRepo.Project>, j: nat)
    requires DistinctIds(ps)
    requires j <= |ps|
    ensures forall id :: ListsProject(ps[..j], id) ==> !ListsProject(ps[j..], id)
  {
    forall id | ListsProject(ps[..j], id) ensures !ListsProject(ps[j..], id) {
      var i :| 0 <= i < j && ps[..j][i].id == id;
      forall m | 0 <= m < |ps[j..]| ensures ps[j..][m].id != id {
        assert ps[j..][m] == ps[j + m] && ps[..j][i] == ps[i];
      }
    }
  }

  /**
   The report is ordered by the project list: every item of an earlier
   project comes before every item of a later one.
   */
  lemma OverdueProjectOrder(pr: MemoryProjectRepo.Repo, tr: MemoryTaskRepo.Repo, threshold: Timestamp, i: nat, j: nat)
    requires MemoryProjectRepo.Valid(pr)
    requires i < j < |MemoryProjectRepo.List(pr)|
    ensures var ps := MemoryProjectRepo.List(pr);
      var items := GetOverdueTasks(pr, tr, threshold);
      forall a, b ::
        && 0 <= a < |items| && 0 <= b < |items|
        && items[a].projectId == ps[i].id && items[b].projectId == ps[j].id
        ==> a < b
  {
    var ps := MemoryProjectRepo.List(pr);
    ListedProjectsDistinct(pr);
    ProjectsBeforeComeFirst(ps, tr, threshold, j);
    assert ps[j..][0] == ps[j];
    assert ps[..j][i] == ps[i];
  }

  /** The listed projects of a valid project store have distinct ids, and they are exactly the stored projects. */
  lemma ListedProjectsDistinct(pr: MemoryProjectRepo.Repo)
    requires MemoryProjectRepo.Valid(pr)
    ensures DistinctIds(MemoryProjectRepo.List(pr))
    ensures forall id :: ListsProject(MemoryProjectRepo.List(pr), id) <==> id in pr.projects.items
  {
    var ps := MemoryProjectRepo.List(pr);
    Stores.ListHoldsOnlyRecords(pr.projects);
    forall id | id in pr.projects.items ensures ListsProject(ps, id) {
      var k := Stores.IndexOf(pr.projects.order, id);
      assert ps[k].id == id;
    }
  }

  /**
   A live task of a listed project is in the overdue report exactly when it is
   overdue; every item of the report is the line of such a task, carrying its
   own project's id.
   */
  lemma OverdueReportExactly(pr: MemoryProjectRepo.Repo, tr: MemoryTaskRepo.Repo, threshold: Timestamp)
    requires MemoryProjectRepo.Valid(pr)
    requires MemoryTaskRepo.Valid(tr)
    ensures forall id :: id in tr.tasks.items && tr.tasks.items[id].projectId in pr.projects.items ==>
      (ItemOf(tr.tasks.items[id].projectId, tr.tasks.items[id]) in GetOverdueTasks(pr, tr, threshold) <==>
       IsOverdue(tr.tasks.items[id], threshold))
    ensures forall item :: item in GetOverdueTasks(pr, tr, threshold) ==> ReportsLiveTask(pr, tr, threshold, item)
  {
    forall id | id in tr.tasks.items && tr.tasks.items[id].projectId in pr.projects.items
      ensures ItemOf(tr.tasks.items[id].projectId, tr.tasks.items[id]) in GetOverdueTasks(pr, tr, threshold) <==>
              IsOverdue(tr.tasks.items[id], threshold)
    {
      TaskInReport(pr, tr, threshold, id);
    }
    forall item | item in GetOverdueTasks(pr, tr, threshold) ensures ReportsLiveTask(pr, tr, threshold, item) {
      ItemFromLiveTask(pr, tr, threshold, item);
    }
  }

  /** `item` is the line of a live, overdue task of a live project, under that project's id. */
  ghost predicate ReportsLiveTask(pr: MemoryProjectRepo.Repo, tr: MemoryTaskRepo.Repo, threshold: Timestamp, item: OverdueItem) {
    && item.taskId in tr.tasks.items
    && item == ItemOf(item.projectId, tr.tasks.items[item.taskId])
    && tr.tasks.items[item.taskId].projectId == item.projectId
    && item.projectId in pr.projects.items
    && IsOverdue(tr.tasks.items[item.taskId], threshold)
  }

  /** A live task of a live project is reported exactly when it is overdue. */
  lemma TaskInReport(pr: MemoryProjectRepo.Repo, tr: MemoryTaskRepo.Repo, threshold: Timestamp, id: Id)
    requires MemoryProjectRepo.Valid(pr)
    requires MemoryTaskRepo.Valid(tr)
    requires id in tr.tasks.items && tr.tasks.items[id].projectId in pr.projects.items
    ensures ItemOf(tr.tasks.items[id].projectId, tr.tasks.items[id]) in GetOverdueTasks(pr, tr, threshold) <==>
      IsOverdue(tr.tasks.items[id], threshold)
  {
    var ps := MemoryProjectRepo.List(pr);
    var items := GetOverdueTasks(pr, tr, threshold);
    var t := tr.tasks.items[id];
    var keep := KeyIs(ItemProject, t.projectId);
    ListedProjectsDistinct(pr);
    OverdueAcrossItems(ps, tr, threshold);
    var k :| 0 <= k < |ps| && ps[k].id == t.projectId;
    ItemsOfProject(ps, tr, threshold, k);
    var listing := MemoryTaskRepo.ListByProject(tr, t.projectId);
    var mine := OverdueIn(t.projectId, listing, threshold);
    assert Filter(items, keep) == mine;
    MemoryTaskRepo.LiveTasksListed(tr, t.projectId);
    assert t in listing;
    OverdueInMembers(t.projectId, listing, threshold);
    FilterMembers(items, keep);
    if IsOverdue(t, threshold) {
      assert ItemOf(t.projectId, t) in mine;
    }
  }

  /** Every report item is the line of a live overdue task of a live project. */
  lemma ItemFromLiveTask(pr: MemoryProjectRepo.Repo, tr: MemoryTaskRepo.Repo, threshold: Timestamp, item: OverdueItem)
    requires MemoryProjectRepo.Valid(pr)
    requires MemoryTaskRepo.Valid(tr)
    requires item in GetOverdueTasks(pr, tr, threshold)
    ensures ReportsLiveTask(pr, tr, threshold, item)
  {
    ListedProjectsDistinct(pr);
    ItemOfListedProject(MemoryProjectRepo.List(pr), tr, threshold, item);
    ItemOfListing(tr, item.projectId, threshold, item);
  }

  /** A report item belongs to a listed project and is among that project's own overdue items. */
  lemma ItemOfListedProject(ps: seq<MemoryProjectRepo.Project>, tr: MemoryTaskRepo.Repo, threshold: Timestamp, item: OverdueItem)
    requires DistinctIds(ps)
    requires item in OverdueAcross(ps, tr, threshold)
    ensures ListsProject(ps, item.projectId)
    ensures item in OverdueIn(item.projectId, MemoryTaskRepo.ListByProject(tr, item.projectId), threshold)
  {
    var items := OverdueAcross(ps, tr, threshold);
    var keep := KeyIs(ItemProject, item.projectId);
    var a :| 0 <= a < |items| && items[a] == item;
    OverdueAcrossItems(ps, tr, threshold);
    var k :| 0 <= k < |ps| && ps[k].id == item.projectId;
    ItemsOfProject(ps, tr, threshold, k);
    FilterMembers(items, keep);
    assert keep(items[a]);
  }

  /** An overdue item of a project's listing is the line of a live overdue task of that project. */
  lemma ItemOfListing(tr: MemoryTaskRepo.Repo, projectId: Id, threshold: Timestamp, item: OverdueItem)
    requires MemoryTaskRepo.Valid(tr)
    requires item in OverdueIn(projectId, MemoryTaskRepo.ListByProject(tr, projectId), threshold)
    ensures item.taskId in tr.tasks.items
    ensures item == ItemOf(projectId, tr.tasks.items[item.taskId])
    ensures tr.tasks.items[item.taskId].projectId == projectId
    ensures IsOverdue(tr.tasks.items[item.taskId], threshold)
  {
    var listing := MemoryTaskRepo.ListByProject(tr, projectId);
    OverdueInMembers(projectId, listing, threshold);
    var t :| t in listing && IsOverdue(t, threshold) && item == ItemOf(projectId, t);
    MemoryTaskRepo.ListedTasksLive(tr, projectId);
    assert MemoryTaskRepo.GetById(tr, t.id) == Some(t);
  }

  /** One project's overdue items are the lines of exactly its overdue tasks. */
  lemma OverdueInMembers(projectId: Id, tasks: seq<Task>, threshold: Timestamp)
    ensures forall t :: t in tasks && IsOverdue(t, threshold) ==> ItemOf(projectId, t) in OverdueIn(projectId, tasks, threshold)
    ensures forall item :: item in OverdueIn(projectId, tasks, threshold) ==>
      exists t :: t in tasks && IsOverdue(t, threshold) && item == ItemOf(projectId, t)
  {
    var items := OverdueIn(projectId, tasks, threshold);
    var f := Filter(tasks, OverdueAt(threshold));
    OverdueInIsFilter(projectId, tasks, threshold);
    FilterMembers(tasks, OverdueAt(threshold));
    forall t | t in tasks && IsOverdue(t, threshold) ensures ItemOf(projectId, t) in items {
      var i :| 0 <= i < |tasks| && tasks[i] == t;
      assert OverdueAt(threshold)(tasks[i]);
      var j :| 0 <= j < |f| && f[j] == t;
      assert items[j] == ItemOf(projectId, t);
    }
    forall item | item in items ensures exists t :: t in tasks && IsOverdue(t, threshold) && item == ItemOf(projectId, t) {
      var j :| 0 <= j < |items| && items[j] == item;
      assert OverdueAt(threshold)(f[j]);
      assert f[j] in tasks;
    }
  }

  // ---------------------------------------------------------------------------
  // Workload
  // ---------------------------------------------------------------------------

  /** The predicate "assigned to `userId` and in an active status": the tasks that count towards a workload. */
  function AssignedActive(userId: Id): Task -> bool {
    (t: Task) => t.assigneeId == Some(userId) && IsActive(t.status)
  }

  /** The tasks of every project of `projects`, project by project, each in its listing order. */
  function ProjectTasks(projects: seq<MemoryProjectRepo.Project>, tr: MemoryTaskRepo.Repo): seq<Task> {
    if |projects| == 0 then []
    else
      var n := |projects| - 1;
      ProjectTasks(projects[..n], tr) + MemoryTaskRepo.ListByProject(tr, projects[n].id)
  }

  /** The workload of one user over the tasks of the listed projects. */
  function WorkloadOf(u: MemoryUserRepo.User, tasks: seq<Task>): (row: WorkloadItem)
    ensures row.userId == u.id && row.userName == u.name
    ensures row.activeTasks <= |tasks|
    ensures row.activeTasks == |Filter(tasks, AssignedActive(u.id))|
  {
    WorkloadItem(u.id, u.name, Count(tasks, AssignedActive(u.id)))
  }

  /**
   The workload report: one row per user, in user list order, counting the
   user's active tasks over every listed project.
   */
  function GetWorkload(ur: MemoryUserRepo.Repo, pr: MemoryProjectRepo.Repo, tr: MemoryTaskRepo.Repo): (rows: seq<WorkloadItem>)
    ensures |rows| == |MemoryUserRepo.List(ur)|
    ensures forall i :: 0 <= i < |rows| ==>
      && rows[i].userId == MemoryUserRepo.List(ur)[i].id
      && rows[i].userName == MemoryUserRepo.List(ur)[i].name
      && rows[i].activeTasks == Count(ProjectTasks(MemoryProjectRepo.List(pr), tr), AssignedActive(rows[i].userId))
  {
    var users := MemoryUserRepo.List(ur);
    var tasks := ProjectTasks(MemoryProjectRepo.List(pr), tr);
    seq(|users|, i requires 0 <= i < |users| => WorkloadOf(users[i], tasks))
  }

  /** The count of a missing key is 0 (`counts.get(id) ?? 0`). */
  function Lookup(counts: map<Id, nat>, id: Id): nat {
    if id in counts then counts[id] else 0
  }

  /** Appending one element adds one to the count exactly when the element is kept. */
  lemma CountSnoc<T>(xs: seq<T>, x: T, keep: T -> bool)
    ensures Count(xs + [x], keep) == Count(xs, keep) + if keep(x) then 1 else 0
  {
    FilterConcat(xs, [x], keep);
    assert [x][1..] == [];
  }

  /** Seeds the count map with 0 for every user (the first loop of `getWorkload`). */
  method SeedCounts(users: seq<MemoryUserRepo.User>) returns (counts: map<Id, nat>)
    ensures forall i :: 0 <= i < |users| ==> users[i].id in counts
    ensures forall id :: Lookup(counts, id) == 0
  {
    counts := map[];
    for k := 0 to |users|
      invariant forall i :: 0 <= i < k ==> users[i].id in counts
      invariant forall id :: Lookup(counts, id) == 0
    {
      var seeded := counts[users[k].id := 0];
      forall id ensures Lookup(seeded, id) == 0 {
        if id != users[k].id {
          assert Lookup(seeded, id) == Lookup(counts, id);
        }
      }
      counts := seeded;
    }
  }

  /**
   Adds one project's tasks to the count map: each assigned task in an active
   status adds one to its assignee's count (the inner loop of `getWorkload`).
   */
  method TallyTasks(counts: map<Id, nat>, tasks: seq<Task>) returns (tallied: map<Id, nat>)
    ensures forall id :: Lookup(tallied, id) == Lookup(counts, id) + Count(tasks, AssignedActive(id))
  {
    tallied := counts;
    assert tasks[..0] == [];
    for j := 0 to |tasks|
      invariant forall id :: Lookup(tallied, id) == Lookup(counts, id) + Count(tasks[..j], AssignedActive(id))
    {
      var t := tasks[j];
      forall id ensures Count(tasks[..j + 1], AssignedActive(id)) ==
        Count(tasks[..j], AssignedActive(id)) + if AssignedActive(id)(t) then 1 else 0
      {
        assert tasks[..j + 1] == tasks[..j] + [t];
        CountSnoc(tasks[..j], t, AssignedActive(id));
      }
      if t.assigneeId.Some? && IsActive(t.status) {
        tallied := tallied[t.assigneeId.value := Lookup(tallied, t.assigneeId.value) + 1];
      }
    }
    assert tasks[..|tasks|] == tasks;
  }

  /** One row per user, in user order, with the user's count or 0 (the final `users.map`). */
  method RowsFromCounts(users: seq<MemoryUserRepo.User>, counts: map<Id, nat>) returns (rows: seq<WorkloadItem>)
    ensures |rows| == |users|
    ensures forall i :: 0 <= i < |users| ==>
      rows[i] == WorkloadItem(users[i].id, users[i].name, Lookup(counts, users[i].id))
  {
    rows := [];
    for k := 0 to |users|
      invariant |rows| == k
      invariant forall i :: 0 <= i < k ==> rows[i] == WorkloadItem(users[i].id, users[i].name, Lookup(counts, users[i].id))
    {
      rows := rows + [WorkloadItem(users[k].id, users[k].name, Lookup(counts, users[k].id))];
    }
  }

  /** The counts of the projects so far plus one more project are the counts of the longer run. */
  lemma ProjectTasksCount(projects: seq<MemoryProjectRepo.Project>, tr: MemoryTaskRepo.Repo, p: nat, id: Id)
    requires p < |projects|
    ensures Count(ProjectTasks(projects[..p + 1], tr), AssignedActive(id)) ==
      Count(ProjectTasks(projects[..p], tr), AssignedActive(id)) +
      Count(MemoryTaskRepo.ListByProject(tr, projects[p].id), AssignedActive(id))
  {
    assert projects[..p + 1][..p] == projects[..p];
    FilterConcat(ProjectTasks(projects[..p], tr), MemoryTaskRepo.ListByProject(tr, projects[p].id), AssignedActive(id));
  }

  /**
   Computes the workload report the way the service does: a count map seeded
   with 0 for every user, one pass over every listed project's tasks that
   increments the assignee's count for each assigned active task, and then one
   row per user.
   */
  method ComputeWorkload(ur: MemoryUserRepo.Repo, pr: MemoryProjectRepo.Repo, tr: MemoryTaskRepo.Repo)
    returns (rows: seq<WorkloadItem>)
    ensures rows == GetWorkload(ur, pr, tr)
  {
    var users := MemoryUserRepo.List(ur);
    var projects := MemoryProjectRepo.List(pr);
    var counts := SeedCounts(users);
    for p := 0 to |projects|
      invariant forall id :: Lookup(counts, id) == Count(ProjectTasks(projects[..p], tr), AssignedActive(id))
    {
      counts := TallyTasks(counts, MemoryTaskRepo.ListByProject(tr, projects[p].id));
      forall id ensures Lookup(counts, id) == Count(ProjectTasks(projects[..p + 1], tr), AssignedActive(id)) {
        ProjectTasksCount(projects, tr, p, id);
      }
    }
    assert projects[..|projects|] == projects;
    rows := RowsFromCounts(users, counts);
  }

  /** The ids of the stored tasks, of stored projects, that are assigned to `userId` in an active status. */
  function AssignedLiveTasks(pr: MemoryProjectRepo.Repo, tr: MemoryTaskRepo.Repo, userId: Id): set<Id> {
    set id | id in tr.tasks.items
      && tr.tasks.items[id].projectId in pr.projects.items
      && AssignedActive(userId)(tr.tasks.items[id])
  }

  /** A task is among the tasks of `ps` exactly when it is the task stored under its id and its project is one of `ps`. */
  lemma {:induction false} ProjectTasksStored(ps: seq<MemoryProjectRepo.Project>, tr: MemoryTaskRepo.Repo)
    requires MemoryTaskRepo.Valid(tr)
    ensures forall t: Task :: t in ProjectTasks(ps, tr) <==> MemoryTaskRepo.Stored(tr, t) && ListsProject(ps, t.projectId)
  {
    if |ps| > 0 {
      var n := |ps| - 1;
      ProjectTasksStored(ps[..n], tr);
      MemoryTaskRepo.ListingIsStored(tr, ps[n].id);
      ListsProjectLast(ps);
      assert ProjectTasks(ps, tr) == ProjectTasks(ps[..n], tr) + MemoryTaskRepo.ListByProject(tr, ps[n].id);
    }
  }

  /** A project is listed in `ps` exactly when it is listed before the last one or is the last one. */
  lemma ListsProjectLast(ps: seq<MemoryProjectRepo.Project>)
    requires |ps| > 0
    ensures forall id :: ListsProject(ps, id) <==> ListsProject(ps[..|ps| - 1], id) || id == ps[|ps| - 1].id
  {
    var n := |ps| - 1;
    ListsProjectGrows(ps, n);
    forall id | ListsProject(ps, id) && id != ps[n].id ensures ListsProject(ps[..n], id) {
      var i :| 0 <= i < |ps| && ps[i].id == id;
      assert ps[..n][i] == ps[i];
    }
  }

  /** Over projects with distinct ids, no task occurs twice among their tasks. */
  lemma {:induction false} ProjectTasksDistinct(ps: seq<MemoryProjectRepo.Project>, tr: MemoryTaskRepo.Repo)
    requires MemoryTaskRepo.Valid(tr)
    requires DistinctIds(ps)
    ensures NoDup(ProjectTasks(ps, tr))
  {
    if |ps| > 0 {
      var n := |ps| - 1;
      var listing := MemoryTaskRepo.ListByProject(tr, ps[n].id);
      DistinctPrefix(ps, n);
      ProjectTasksDistinct(ps[..n], tr);
      ProjectTasksStored(ps[..n], tr);
      MemoryTaskRepo.ListingHasNoDuplicates(tr, ps[n].id);
      MemoryTaskRepo.ListingIsStored(tr, ps[n].id);
      NoDupConcat(ProjectTasks(ps[..n], tr), listing);
    }
  }

  /**
   Counting over the tasks of distinct projects that are exactly the stored
   projects counts every stored task assigned to the user in an active status
   once.
   */
  lemma AssignedCount(ps: seq<MemoryProjectRepo.Project>, pr: MemoryProjectRepo.Repo, tr: MemoryTaskRepo.Repo, userId: Id)
    requires MemoryTaskRepo.Valid(tr)
    requires DistinctIds(ps)
    requires forall id :: ListsProject(ps, id) <==> id in pr.projects.items
    ensures Count(ProjectTasks(ps, tr), AssignedActive(userId)) == |AssignedLiveTasks(pr, tr, userId)|
  {
    ProjectTasksDistinct(ps, tr);
    ProjectTasksStored(ps, tr);
    MemoryTaskRepo.CountDistinctStored(ProjectTasks(ps, tr), tr.tasks.items, AssignedActive(userId), AssignedLiveTasks(pr, tr, userId));
  }

  /**
   Each user's workload is the number of stored tasks, of stored projects,
   that are assigned to the user in an active status: every such task counts
   exactly once.
   */
  lemma WorkloadCountsStoredTasks(ur: MemoryUserRepo.Repo, pr: MemoryProjectRepo.Repo, tr: MemoryTaskRepo.Repo, i: nat)
    requires MemoryProjectRepo.Valid(pr)
    requires MemoryTaskRepo.Valid(tr)
    requires i < |MemoryUserRepo.List(ur)|
    ensures i < |GetWorkload(ur, pr, tr)|
    ensures GetWorkload(ur, pr, tr)[i].activeTasks == |AssignedLiveTasks(pr, tr, MemoryUserRepo.List(ur)[i].id)|
  {
    ListedProjectsDistinct(pr);
    AssignedCount(MemoryProjectRepo.List(pr), pr, tr, MemoryUserRepo.List(ur)[i].id);
  }

  // ---------------------------------------------------------------------------
  // Project health
  // ---------------------------------------------------------------------------

  /** The health line of project `p` over its task listing `tasks`. */
  function HealthOf(p: MemoryProjectRepo.Project, tasks: seq<Task>, threshold: Timestamp): (h: HealthItem)
    ensures h.projectId == p.id && h.projectName == p.name && h.projectStatus == p.status
    ensures h.totalTasks == |tasks|
    ensures h.doneTasks + h.overdueTasks <= h.totalTasks
    ensures forall i :: 0 <= i < |tasks| && tasks[i].status == Done ==> h.doneTasks > 0
    ensures forall i :: 0 <= i < |tasks| && IsOverdue(tasks[i], threshold) ==> h.overdueTasks > 0
  {
    HealthCounts(tasks, threshold);
    HealthItem(p.id, p.name, p.status, |tasks|,
               Count(tasks, OverdueAt(threshold)), Count(tasks, KeyIs(StatusOf, Done)))
  }

  /** No task is both overdue and DONE; a DONE task or an overdue task makes its count positive. */
  lemma HealthCounts(tasks: seq<Task>, threshold: Timestamp)
    ensures Count(tasks, OverdueAt(threshold)) + Count(tasks, KeyIs(StatusOf, Done)) <= |tasks|
    ensures (exists i :: 0 <= i < |tasks| && tasks[i].status == Done) ==> Count(tasks, KeyIs(StatusOf, Done)) > 0
    ensures (exists i :: 0 <= i < |tasks| && IsOverdue(tasks[i], threshold)) ==> Count(tasks, OverdueAt(threshold)) > 0
  {
    var overdue, done := OverdueAt(threshold), KeyIs(StatusOf, Done);
    forall x | x in tasks ensures !(overdue(x) && done(x)) {
      assert overdue(x) == IsOverdue(x, threshold);
      assert done(x) == (StatusOf(x) == Done);
    }
    CountDisjoint(tasks, overdue, done);
    FilterNone(tasks, done);
    FilterNone(tasks, overdue);
    if exists i :: 0 <= i < |tasks| && tasks[i].status == Done {
      var i :| 0 <= i < |tasks| && tasks[i].status == Done;
      assert done(tasks[i]) == (StatusOf(tasks[i]) == Done);
    }
    if exists i :: 0 <= i < |tasks| && IsOverdue(tasks[i], threshold) {
      var i :| 0 <= i < |tasks| && IsOverdue(tasks[i], threshold);
      assert overdue(tasks[i]) == IsOverdue(tasks[i], threshold);
    }
  }

  /** The project-health report: one line per listed project, in list order. */
  function GetProjectHealth(pr: MemoryProjectRepo.Repo, tr: MemoryTaskRepo.Repo, threshold: Timestamp): (rows: seq<HealthItem>)
    ensures |rows| == |MemoryProjectRepo.List(pr)|
    ensures forall i :: 0 <= i < |rows| ==>
      var p := MemoryProjectRepo.List(pr)[i];
      && rows[i].projectId == p.id
      && rows[i].projectName == p.name
      && rows[i].projectStatus == p.status
      && rows[i].totalTasks == |MemoryTaskRepo.ListByProject(tr, p.id)|
      && rows[i].doneTasks + rows[i].overdueTasks <= rows[i].totalTasks
  {
    var ps := MemoryProjectRepo.List(pr);
    seq(|ps|, i requires 0 <= i < |ps| => HealthOf(ps[i], MemoryTaskRepo.ListByProject(tr, ps[i].id), threshold))
  }

  /**
   For the same threshold, a project's overdue count in the health report is
   the number of overdue-report items for that project.
   */
  lemma HealthMatchesOverdueReport(pr: MemoryProjectRepo.Repo, tr: MemoryTaskRepo.Repo, threshold: Timestamp, i: nat)
    requires MemoryProjectRepo.Valid(pr)
    requires i < |MemoryProjectRepo.List(pr)|
    ensures var row := GetProjectHealth(pr, tr, threshold)[i];
      row.overdueTasks == Count(GetOverdueTasks(pr, tr, threshold), KeyIs(ItemProject, row.projectId))
  {
    var ps := MemoryProjectRepo.List(pr);
    ListedProjectsDistinct(pr);
    ItemsOfProject(ps, tr, threshold, i);
    OverdueInIsFilter(ps[i].id, MemoryTaskRepo.ListByProject(tr, ps[i].id), threshold);
  }

  /**
   A project's health line counts stored tasks: the total is the number of
   stored tasks of the project, DONE the number of those that are DONE, and
   overdue the number of those that are overdue.
   */
  lemma HealthCountsStoredTasks(pr: MemoryProjectRepo.Repo, tr: MemoryTaskRepo.Repo, threshold: Timestamp, i: nat)
    requires MemoryTaskRepo.Valid(tr)
    requires i < |MemoryProjectRepo.List(pr)|
    ensures i < |GetProjectHealth(pr, tr, threshold)|
    ensures var row := GetProjectHealth(pr, tr, threshold)[i];
      && row.totalTasks == |MemoryTaskRepo.StoredOf(tr, row.projectId, AnyTask)|
      && row.doneTasks == |MemoryTaskRepo.StoredOf(tr, row.projectId, KeyIs(StatusOf, Done))|
      && row.overdueTasks == |MemoryTaskRepo.StoredOf(tr, row.projectId, OverdueAt(threshold))|
  {
    var pid := MemoryProjectRepo.List(pr)[i].id;
    var listing := MemoryTaskRepo.ListByProject(tr, pid);
    MemoryTaskRepo.ListingCount(tr, pid, AnyTask);
    MemoryTaskRepo.ListingCount(tr, pid, KeyIs(StatusOf, Done));
    MemoryTaskRepo.ListingCount(tr, pid, OverdueAt(threshold));
    assert forall k :: 0 <= k < |listing| ==> AnyTask(listing[k]);
    FilterKeepsAll(listing, AnyTask);
  }
}
