/** TaskService: CRUD over the task repository, and detection of status
    transitions in updateTask, each of which is handed to the Kafka producer
    as one status-update envelope. */
module Services {
  import opened Wrappers
  import opened Domain
  import opened Mapper

  /** The topic status-update envelopes are sent to. */
  const UpdateTopic: string := "t_plus_tasks_update_status"

  /** The message of the EntityNotFoundException the service throws. */
  const TaskNotFound: string := "Task not found"

  /** EntityNotFoundException, the only error the service lets reach its caller. */
  datatype Error = NotFound(message: string)

  /** One record handed to the producer: the destination topic and the value. */
  datatype ProducerRecord = ProducerRecord(topic: string, value: TaskStatusUpdateDto)

  /** The records the producer receives for a list of envelopes sent to the
      update topic, in order. */
  function Envelopes(events: seq<TaskStatusUpdateDto>): (records: seq<ProducerRecord>)
    ensures |records| == |events|
    ensures forall i :: 0 <= i < |events| ==>
              records[i].topic == "t_plus_tasks_update_status" && records[i].value == events[i]
  {
    if events == [] then [] else [ProducerRecord(UpdateTopic, events[0])] + Envelopes(events[1..])
  }

  /** One updateTask on the stored task `current` with request `req`, as a
      value: the task it saves (title, description, userId and status from the
      request, id from the stored task) and the envelopes it publishes (one
      exactly when the old and new status differ under null-safe equality). */
  function UpdateStep(current: Task, req: TaskDto): (step: (Task, seq<TaskStatusUpdateDto>))
    ensures step.0 == Task(current.id, req.title, req.description, req.userId, req.status)
    ensures current.status != req.status ==> step.1 == [TaskStatusUpdateDto(current.id, req.status)]
    ensures current.status == req.status ==> step.1 == []
  {
    var existing := ToTaskDto(current).(title := req.title, description := req.description, userId := req.userId);
    var statusChanged := existing.status != req.status;
    var updated := existing.(status := req.status);
    (ToTask(updated), if statusChanged then [ToStatusUpdateDto(ToTask(updated))] else [])
  }

  /** Repeating an update is harmless: the second call saves the same task and
      publishes nothing. */
  lemma UpdateIdempotent(current: Task, req: TaskDto)
    ensures UpdateStep(UpdateStep(current, req).0, req).0 == UpdateStep(current, req).0
    ensures UpdateStep(UpdateStep(current, req).0, req).1 == []
  {
  }

  /** Successive updateTask calls on one stored task, every send succeeding:
      the task finally stored and the envelopes published, in order. */
  function Replay(current: Task, reqs: seq<TaskDto>): (run: (Task, seq<TaskStatusUpdateDto>))
    ensures run.0.id == current.id
    ensures |run.1| <= |reqs|
    ensures forall e :: e in run.1 ==> e.id == current.id
    decreases |reqs|
  {
    if reqs == [] then (current, [])
    else
      var prefix := Replay(current, reqs[..|reqs| - 1]);
      var step := UpdateStep(prefix.0, reqs[|reqs| - 1]);
      (step.0, prefix.1 + step.1)
  }

  /** After any run of updates, the stored status is the one the last
      envelope published carries, or the initial status when none was: a
      consumer that applies the envelopes in order ends up with the stored status. */
  lemma {:induction false} ReplayLastEventIsStored(current: Task, reqs: seq<TaskDto>)
    ensures var run := Replay(current, reqs);
            run.0.status == if |run.1| > 0 then run.1[|run.1| - 1].status else current.status
  {
    if reqs != [] {
      ReplayLastEventIsStored(current, reqs[..|reqs| - 1]);
    }
  }

  /** Envelopes only report transitions: the first differs from the status
      the task started with, and no two consecutive ones carry the same status. */
  lemma {:induction false} ReplayNoRepeatedStatus(current: Task, reqs: seq<TaskDto>)
    ensures var events := Replay(current, reqs).1;
            && (|events| > 0 ==> events[0].status != current.status)
            && (forall i :: 0 < i < |events| ==> events[i - 1].status != events[i].status)
  {
    if reqs != [] {
      var init := reqs[..|reqs| - 1];
      var prefix := Replay(current, init);
      ReplayNoRepeatedStatus(current, init);
      ReplayLastEventIsStored(current, init);
      var events := Replay(current, reqs).1;
      if |prefix.1| == 0 {
        assert |events| <= 1;
      } else {
        forall i | 0 < i < |events|
          ensures events[i - 1].status != events[i].status
        {
          if i < |prefix.1| {
            assert events[i - 1] == prefix.1[i - 1] && events[i] == prefix.1[i];
          }
        }
      }
    }
  }

  /** Replaying a status unchanged from the stored one publishes nothing,
      whatever else the requests change. */
  lemma {:induction false} ReplaySameStatusIsSilent(current: Task, reqs: seq<TaskDto>)
    requires forall i :: 0 <= i < |reqs| ==> reqs[i].status == current.status
    ensures Replay(current, reqs).1 == []
    ensures Replay(current, reqs).0.status == current.status
  {
    if reqs != [] {
      ReplaySameStatusIsSilent(current, reqs[..|reqs| - 1]);
    }
  }

  /** The service over the repository (a map from id to stored task, with the
      database's identity counter) and the producer (the records it has
      accepted for the broker, in order). */
  class TaskService {
    var repository: map<int, Task>
    var nextId: int
    var outbox: seq<ProducerRecord>

    /** Every stored task is filed under its own id, which the identity
        counter issued. */
    ghost predicate Valid()
      reads this
    {
      1 <= nextId &&
      forall k :: k in repository ==> repository[k].id == Some(k) && 1 <= k < nextId
    }

    constructor ()
      ensures Valid()
      ensures repository == map[] && outbox == [] && nextId == 1
    {
      repository := map[];
      nextId := 1;
      outbox := [];
    }

    /** TaskRepository.save: a task whose id is stored overwrites that entry;
        any other task is inserted under a fresh id from the identity counter. */
    method Save(task: Task) returns (saved: Task)
      requires Valid()
      modifies this
      ensures Valid()
      ensures saved.id.Some? && saved == task.(id := saved.id)
      ensures task.id.Some? && task.id.value in old(repository) ==> saved == task
      ensures !(task.id.Some? && task.id.value in old(repository)) ==> saved.id.value !in old(repository)
      ensures repository == old(repository)[saved.id.value := saved]
      ensures task.id.Some? && task.id.value in old(repository) ==> nextId == old(nextId)
      ensures !(task.id.Some? && task.id.value in old(repository)) ==>
                saved.id == Some(old(nextId)) && nextId == old(nextId) + 1
      ensures outbox == old(outbox)
    {
      if task.id.Some? && task.id.value in repository {
        saved := task;
      } else {
        saved := task.(id := Some(nextId));
        nextId := nextId + 1;
      }
      repository := repository[saved.id.value := saved];
    }

    /** KafkaClientProducer.sendTo: the record is accepted, or the send fails
        (`succeeds` false) and nothing is recorded. */
    method SendTo(topic: string, value: TaskStatusUpdateDto, succeeds: bool)
      modifies this
      ensures outbox == old(outbox) + (if succeeds then [ProducerRecord(topic, value)] else [])
      ensures repository == old(repository) && nextId == old(nextId)
    {
      if succeeds {
        outbox := outbox + [ProducerRecord(topic, value)];
      }
    }

    /** getAllTasks: one DTO per stored task, in the repository's (unspecified)
        order. */
    method GetAllTasks() returns (all: seq<TaskDto>)
      requires Valid()
      ensures |all| == |repository|
      ensures forall k :: k in repository ==> ToTaskDto(repository[k]) in all
      ensures forall i :: 0 <= i < |all| ==>
                all[i].id.Some? && all[i].id.value in repository && all[i] == ToTaskDto(repository[all[i].id.value])
      ensures forall i, j :: 0 <= i < j < |all| ==> all[i].id != all[j].id
    {
      all := [];
      var remaining := repository.Keys;
      while remaining != {}
        invariant remaining <= repository.Keys
        invariant |all| + |remaining| == |repository.Keys|
        invariant forall k :: k in repository && k !in remaining ==> ToTaskDto(repository[k]) in all
        invariant forall i :: 0 <= i < |all| ==>
                    all[i].id.Some? && all[i].id.value in repository && all[i].id.value !in remaining
                    && all[i] == ToTaskDto(repository[all[i].id.value])
        invariant forall i, j :: 0 <= i < j < |all| ==> all[i].id != all[j].id
        decreases remaining
      {
        if forall k :: k !in remaining {
          assert false;  // the loop guard says some id remains
        }
        var key :| key in remaining;
        all := all + [ToTaskDto(repository[key])];
        remaining := remaining - {key};
      }
    }

    /** getTaskById: the stored task, or NotFound when the id is absent. */
    method GetTaskById(id: int) returns (r: Result<TaskDto, Error>)
      ensures id in repository ==> r == Ok(ToTaskDto(repository[id]))
      ensures id !in repository ==> r == Err(NotFound(TaskNotFound))
    {
      if id in repository {
        r := Ok(ToTaskDto(repository[id]));
      } else {
        r := Err(NotFound(TaskNotFound));
      }
    }

    /** createTask: saves exactly one task built from the DTO, publishes
        nothing, and returns the saved task. */
    method CreateTask(dto: TaskDto) returns (created: TaskDto)
      requires Valid()
      modifies this
      ensures Valid()
      ensures created.id.Some? && created == dto.(id := created.id)
      ensures repository == old(repository)[created.id.value := ToTask(created)]
      ensures dto.id.Some? && dto.id.value in old(repository) ==> created.id == dto.id
      ensures !(dto.id.Some? && dto.id.value in old(repository)) ==> created.id.value !in old(repository)
      ensures !(dto.id.Some? && dto.id.value in old(repository)) ==>
                created.id == Some(old(nextId)) && nextId == old(nextId) + 1
      ensures dto.id.Some? && dto.id.value in old(repository) ==> nextId == old(nextId)
      ensures outbox == old(outbox)
    {
      var saved := Save(ToTask(dto));
      created := ToTaskDto(saved);
    }

    /** updateTask: overwrites title, description, userId and status of the
        stored task, saves it, and when the status changed sends one envelope
        with the task's id and new status to the update topic. A failed send
        (`sendSucceeds` false) is swallowed. A missing id is NotFound and
        changes nothing. */
    method UpdateTask(id: int, req: TaskDto, sendSucceeds: bool) returns (r: Result<TaskDto, Error>)
      requires Valid()
      modifies this
      ensures Valid()
      ensures r.Err? <==> id !in old(repository)
      ensures r.Err? ==> r.error == NotFound(TaskNotFound)
                         && repository == old(repository) && outbox == old(outbox) && nextId == old(nextId)
      ensures r.Ok? ==> r.value == TaskDto(Some(id), req.title, req.description, req.userId, req.status)
      ensures r.Ok? ==> repository == old(repository)[id := ToTask(r.value)] && nextId == old(nextId)
      ensures r.Ok? && old(repository)[id].status != req.status && sendSucceeds ==>
                outbox == old(outbox) + [ProducerRecord(UpdateTopic, TaskStatusUpdateDto(Some(id), req.status))]
      ensures r.Ok? && (old(repository)[id].status == req.status || !sendSucceeds) ==> outbox == old(outbox)
      ensures r.Ok? ==> var step := UpdateStep(old(repository)[id], req);
                        && ToTask(r.value) == step.0
                        && outbox == old(outbox) + (if sendSucceeds then Envelopes(step.1) else [])
    {
      var found := GetTaskById(id);
      if found.Err? {
        return Err(found.error);
      }
      var existingTask := found.value;
      existingTask := existingTask.(title := req.title, description := req.description, userId := req.userId);
      var statusChanged := existingTask.status != req.status;
      existingTask := existingTask.(status := req.status);
      var _ := Save(ToTask(existingTask));
      if statusChanged {
        SendTo(UpdateTopic, ToStatusUpdateDto(ToTask(existingTask)), sendSucceeds);
      }
      r := Ok(existingTask);
    }

    /** deleteTask: NotFound when the id is absent; otherwise removes that one
        entry. Never publishes. */
    method DeleteTask(id: int) returns (r: Result<(), Error>)
      requires Valid()
      modifies this
      ensures Valid()
      ensures r.Err? <==> id !in old(repository)
      ensures r.Err? ==> r.error == NotFound(TaskNotFound)
      ensures repository == old(repository) - {id}
      ensures outbox == old(outbox) && nextId == old(nextId)
    {
      if id !in repository {
        return Err(NotFound(TaskNotFound));
      }
      repository := repository - {id};
      r := Ok(());
    }
  }

  /** A client of the service: a created task can be read back; updating it
      from NEW to IN_PROGRESS publishes one envelope, repeating the update
      publishes none, deleting it publishes none, and afterwards reads, updates
      and deletes of its id are NotFound. */
  method StatusChangeScenario()
  {
    var service := new TaskService();
    var created := service.CreateTask(TaskDto(None, "Task", "Description", 1, Some(New)));
    var id := created.id.value;
    var read := service.GetTaskById(id);
    assert read == Ok(created);
    var req := TaskDto(None, "Task", "Description", 2, Some(InProgress));
    var updated := service.UpdateTask(id, req, true);
    assert updated == Ok(TaskDto(Some(id), "Task", "Description", 2, Some(InProgress)));
    assert service.outbox == [ProducerRecord(UpdateTopic, TaskStatusUpdateDto(Some(id), Some(InProgress)))];
    var again := service.UpdateTask(id, req, true);
    assert |service.outbox| == 1;
    var deleted := service.DeleteTask(id);
    assert deleted.Ok? && id !in service.repository && |service.outbox| == 1;
    read := service.GetTaskById(id);
    assert read == Err(NotFound(TaskNotFound));
    var missing := service.UpdateTask(id, req, true);
    assert missing == Err(NotFound(TaskNotFound));
    deleted := service.DeleteTask(id);
    assert deleted == Err(NotFound(TaskNotFound));
    var recreated := service.CreateTask(TaskDto(None, "Task", "Description", 1, Some(New)));
    assert recreated.id != created.id;
  }

  /** A failed send is swallowed: the update is stored and returned, but the
      transition reaches no consumer. */
  method SwallowedSendScenario()
  {
    var service := new TaskService();
    var created := service.CreateTask(TaskDto(None, "Task", "Description", 1, Some(New)));
    var id := created.id.value;
    var updated := service.UpdateTask(id, created.(status := Some(Done)), false);
    assert updated.Ok? && service.repository[id].status == Some(Done);
    assert service.outbox == [];
  }
}
