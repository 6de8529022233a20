/**
 Task records, status-history records and the fixed status sets every task
 store and the reports share.
 */
module TaskRepo {
  import opened Common

  datatype TaskPriority = Low | Medium | High | Urgent

  datatype TaskStatus = Todo | InProgress | Review | Done | Blocked

  datatype Task = Task(
    id: Id,
    projectId: Id,
    title: string,
    description: Option<string>,
    assigneeId: Option<Id>,
    priority: TaskPriority,
    status: TaskStatus,
    dueDate: Option<Timestamp>,
    createdAt: Timestamp,
    updatedAt: Timestamp)

  /** One entry of the append-only log written on every status change. */
  datatype TaskStatusHistory = TaskStatusHistory(
    id: Id,
    taskId: Id,
    fromStatus: TaskStatus,
    toStatus: TaskStatus,
    changedByUserId: Id,
    changedAt: Timestamp)

  /** The project a task belongs to. */
  function TaskProject(t: Task): Id {
    t.projectId
  }

  /** The task a history entry is about. */
  function HistoryTask(h: TaskStatusHistory): Id {
    h.taskId
  }

  /** Statuses that count towards a user's workload. */
  const ActiveTaskStatuses: seq<TaskStatus> := [Todo, InProgress, Review, Blocked]

  /** Statuses of tasks somebody is working on right now. */
  const WorkingTaskStatuses: seq<TaskStatus> := [InProgress, Review]

  /** Priority given to a task created without one. */
  const DefaultPriority: TaskPriority := Medium

  /** Membership in the active set (`ACTIVE_TASK_STATUSES.includes`). */
  function IsActive(s: TaskStatus): (b: bool)
    ensures b <==> s != Done
  {
    StatusSets();
    s in ActiveTaskStatuses
  }

  /** The fixed sets: active is every status but DONE, working statuses are active, the default priority is MEDIUM. */
  lemma StatusSets()
    ensures forall s :: s in ActiveTaskStatuses <==> s in {Todo, InProgress, Review, Blocked}
    ensures forall s :: s in ActiveTaskStatuses <==> s != Done
    ensures forall s :: s in WorkingTaskStatuses ==> s in ActiveTaskStatuses
    ensures DefaultPriority == Medium
  {
    forall s ensures s in ActiveTaskStatuses <==> s != Done {
      match s
      case Todo => assert ActiveTaskStatuses[0] == s;
      case InProgress => assert ActiveTaskStatuses[1] == s;
      case Review => assert ActiveTaskStatuses[2] == s;
      case Blocked => assert ActiveTaskStatuses[3] == s;
      case Done =>
    }
  }
}
