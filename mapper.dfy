/** TaskMapper: field-for-field conversions between Task, TaskDto and the
    status-update envelope. */
module Mapper {
  import opened Domain

  /** toTaskDto: every field of the entity, unchanged. */
  function ToTaskDto(task: Task): (dto: TaskDto)
    ensures dto.id == task.id && dto.title == task.title
    ensures dto.description == task.description && dto.userId == task.userId
    ensures dto.status == task.status
  {
    TaskDto(task.id, task.title, task.description, task.userId, task.status)
  }

  /** toTask: every field of the DTO, unchanged. */
  function ToTask(dto: TaskDto): (task: Task)
    ensures task.id == dto.id && task.title == dto.title
    ensures task.description == dto.description && task.userId == dto.userId
    ensures task.status == dto.status
  {
    Task(dto.id, dto.title, dto.description, dto.userId, dto.status)
  }

  /** toStatusUpdateDto: the envelope carries exactly the task's id and status. */
  function ToStatusUpdateDto(task: Task): (event: TaskStatusUpdateDto)
    ensures event.id == task.id && event.status == task.status
  {
    TaskStatusUpdateDto(task.id, task.status)
  }

  /** Entity -> DTO -> entity loses nothing. */
  lemma TaskRoundTrip(task: Task)
    ensures ToTask(ToTaskDto(task)) == task
  {
  }

  /** DTO -> entity -> DTO loses nothing. */
  lemma DtoRoundTrip(dto: TaskDto)
    ensures ToTaskDto(ToTask(dto)) == dto
  {
  }

  /** The two conversions are injective: distinct tasks give distinct DTOs
      and vice versa. */
  lemma ConversionsInjective(a: Task, b: Task, c: TaskDto, d: TaskDto)
    ensures ToTaskDto(a) == ToTaskDto(b) ==> a == b
    ensures ToTask(c) == ToTask(d) ==> c == d
  {
    TaskRoundTrip(a);
    TaskRoundTrip(b);
    DtoRoundTrip(c);
    DtoRoundTrip(d);
  }

  /** The composition used when publishing: the envelope built from a DTO
      carries that DTO's id and status, and two DTOs give the same envelope
      exactly when they agree on id and status. */
  lemma StatusUpdateOfDto(dto: TaskDto, other: TaskDto)
    ensures ToStatusUpdateDto(ToTask(dto)) == TaskStatusUpdateDto(dto.id, dto.status)
    ensures ToStatusUpdateDto(ToTask(dto)) == ToStatusUpdateDto(ToTask(other))
            <==> dto.id == other.id && dto.status == other.status
  {
  }
}
