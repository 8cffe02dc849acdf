/** The values the task service, its mapper and the status-update consumer
    pass around: the persistent Task entity, the TaskDto of the HTTP layer and
    the TaskStatusUpdateDto envelope sent over the update-status topic. */
module Domain {
  import opened Wrappers

  /** The closed set of task statuses. The tests use NEW and IN_PROGRESS;
      DONE completes the lifecycle. */
  datatype TaskStatus = New | InProgress | Done

  /** The JPA entity stored in the "tasks" table. `id` is None until the
      database assigns one; `status` may be null in Java, hence an Option. */
  datatype Task = Task(
    id: Option<int>,
    title: string,
    description: string,
    userId: int,
    status: Option<TaskStatus>)

  /** The task as the HTTP layer sees it: the same five fields. */
  datatype TaskDto = TaskDto(
    id: Option<int>,
    title: string,
    description: string,
    userId: int,
    status: Option<TaskStatus>)

  /** The status-change envelope: the task's id and its new status. */
  datatype TaskStatusUpdateDto = TaskStatusUpdateDto(
    id: Option<int>,
    status: Option<TaskStatus>)
}
