# Task manager: status-transition detection and the status-update consumer

A Dafny model of the sequential core of a Spring task manager.

- **TaskService** performs CRUD over a task repository. On `updateTask` it detects whether the task's status changed. For each change it hands exactly one status-update envelope, holding the task id and the new status, to a Kafka producer on the topic `t_plus_tasks_update_status`. A failed send is swallowed.
- **TaskMapper** copies fields between the `Task` entity, the `TaskDto` and the `TaskStatusUpdateDto` envelope.
- **KafkaClientConsumer.listener** hands each envelope of a batch, in order, to the notification handler. It acknowledges the batch in a `finally`.

Files:

- `wrappers.dfy`: `Option` models a Java reference that may be null. `Result` models a call that returns or throws.
- `domain.dfy`: the `TaskStatus` enum, `Task`, `TaskDto` and `TaskStatusUpdateDto`.
- `mapper.dfy`: the three conversions and their round trips.
- `task_service.dfy`: class `TaskService`. Its `repository` is a map from id to stored task. `nextId` is the database identity counter. `outbox` is the sequence of records the producer accepted. The module also holds pure functions for one update (`UpdateStep`) and for a run of updates (`Replay`), with lemmas about them.
- `kafka_consumer.dfy`: the listener as a method with a loop. It returns the trace of handler calls and acknowledgements, and how the call ended.

Modelling choices:

- The repository's `save` overwrites the entry when the task's id is stored. Otherwise it inserts the task under a fresh id taken from the identity counter. The counter stands for the IDENTITY column, so ids are never reused.
- The producer is an abstract send. The send either appends `(topic, envelope)` to the outbox or fails. The flag `sendSucceeds` says which. A failed send changes nothing and raises no error.
- The notification handler is an abstract fallible operation. `failing` is the set of batch positions whose handler call raises.
- `Task.java` declares `status` as a `String` (model/Task.java:63). `TaskDto`, `TaskStatusUpdateDto`, the mapper and the tests all use the `TaskStatus` enum. The model uses the enum everywhere.
- `TaskStatus.java` is not part of this model. The tests use `NEW` and `IN_PROGRESS`. The model adds `DONE`. No proof depends on which statuses exist.
- `id` and `status` are `Option`s, because Java `null` matters for them. A DTO without an id is saved under a fresh id. `Objects.equals` treats two nulls as equal, and `Option` equality does the same.

## Model

| member | source | states |
|---|---|---|
| `Mapper.ToTaskDto` | src/main/java/org/tplus/taskManager/taskManager_crud/mapper/TaskMapper.java:26-34 | id, title, description, userId and status are copied unchanged |
| `Mapper.ToTask` | src/main/java/org/tplus/taskManager/taskManager_crud/mapper/TaskMapper.java:42-50 | id, title, description, userId and status are copied unchanged |
| `Mapper.ToStatusUpdateDto` | src/main/java/org/tplus/taskManager/taskManager_crud/mapper/TaskMapper.java:61-66 | the envelope carries exactly the task's id and status |
| `Mapper.TaskRoundTrip` | src/main/java/org/tplus/taskManager/taskManager_crud/mapper/TaskMapper.java:26-50 | `toTask(toTaskDto(t)) == t` |
| `Mapper.DtoRoundTrip` | src/main/java/org/tplus/taskManager/taskManager_crud/mapper/TaskMapper.java:26-50 | `toTaskDto(toTask(d)) == d` |
| `Mapper.ConversionsInjective` | src/main/java/org/tplus/taskManager/taskManager_crud/mapper/TaskMapper.java:26-50 | neither conversion merges two distinct values |
| `Mapper.StatusUpdateOfDto` | src/main/java/org/tplus/taskManager/taskManager_crud/mapper/TaskMapper.java:42-66 | `toStatusUpdateDto(toTask(d))` carries d's id and status, and two DTOs give the same envelope iff they agree on id and status |
| `Services.UpdateStep` | src/main/java/org/tplus/taskManager/taskManager_crud/services/TaskService.java:99-120 | one update saves the stored id with the request's title, description, userId and status; it publishes one envelope (id, new status) iff old and new status differ under null-safe equality, otherwise none |
| `Services.UpdateIdempotent` | src/main/java/org/tplus/taskManager/taskManager_crud/services/TaskService.java:99-120 | repeating an update saves the same task and publishes nothing |
| `Services.Replay` | src/main/java/org/tplus/taskManager/taskManager_crud/services/TaskService.java:99-120 | over a run of updates to one task, the id never changes, every envelope carries that id, and there are at most as many envelopes as updates |
| `Services.ReplayLastEventIsStored` | src/main/java/org/tplus/taskManager/taskManager_crud/services/TaskService.java:106-113 | after any run of updates with every send succeeding, the stored status is the last envelope's status, or the initial status if nothing was published |
| `Services.ReplayNoRepeatedStatus` | src/main/java/org/tplus/taskManager/taskManager_crud/services/TaskService.java:106-113 | the first envelope's status differs from the initial status, and consecutive envelopes never carry the same status |
| `Services.ReplaySameStatusIsSilent` | src/main/java/org/tplus/taskManager/taskManager_crud/services/TaskService.java:106-113 | updates that keep the status publish nothing, whatever else they change |
| `Services.Envelopes` | src/main/java/org/tplus/taskManager/taskManager_crud/services/TaskService.java:49-50 | the records for a list of envelopes, one each and in order, all on the literal topic `t_plus_tasks_update_status` (the `updateTopic` constant, `Services.UpdateTopic`) |
| `Services.TaskService.constructor` | src/main/java/org/tplus/taskManager/taskManager_crud/services/TaskService.java:33-50 | the service starts with an empty repository and an empty outbox |
| `Services.TaskService.Save` | src/main/java/org/tplus/taskManager/taskManager_crud/services/TaskService.java:84 | a task whose id is stored overwrites that entry and leaves the identity counter alone; any other task is inserted under the counter's current value, which then advances by one, so ids are never reused; exactly one entry changes and nothing is published |
| `Services.TaskService.SendTo` | src/main/java/org/tplus/taskManager/taskManager_crud/services/TaskService.java:111-117 | a send appends one (topic, envelope) record or, when it fails, nothing; the repository is untouched |
| `Services.TaskService.GetAllTasks` | src/main/java/org/tplus/taskManager/taskManager_crud/services/TaskService.java:57-62 | one DTO per stored task: same count, every stored task present, every entry the mapped stored task, no id twice |
| `Services.TaskService.GetTaskById` | src/main/java/org/tplus/taskManager/taskManager_crud/services/TaskService.java:71-74 | the mapped stored task when the id is present, NotFound("Task not found") when absent; nothing changes |
| `Services.TaskService.CreateTask` | src/main/java/org/tplus/taskManager/taskManager_crud/services/TaskService.java:82-86 | exactly one entry is written and returned: under the DTO's id if that is stored, otherwise under the next identity value, which advances (a deleted id is never issued again); nothing is published |
| `Services.TaskService.UpdateTask` | src/main/java/org/tplus/taskManager/taskManager_crud/services/TaskService.java:99-120 | a missing id gives NotFound and changes nothing; otherwise the identity counter is untouched, the returned and stored task has the stored id and the request's title, description, userId and status, no other entry changes, and exactly one record (`t_plus_tasks_update_status`, (id, new status)) is appended iff the status changed and the send succeeded; a failed send still returns the update |
| `Services.TaskService.DeleteTask` | src/main/java/org/tplus/taskManager/taskManager_crud/services/TaskService.java:128-133 | a missing id gives NotFound and changes nothing; otherwise only that entry is removed; nothing is published |
| `Consumer.Dispatches` | src/main/java/org/tplus/taskManager/taskManager_crud/kafka/KafkaClientConsumer.java:55-57 | one handler call per message, in list order |
| `Consumer.FirstFailure` | src/main/java/org/tplus/taskManager/taskManager_crud/kafka/KafkaClientConsumer.java:55-57 | the position of the first failing handler call, or the batch size: nothing fails before it, and it fails unless it is the end |
| `Consumer.ListenerRun` | src/main/java/org/tplus/taskManager/taskManager_crud/kafka/KafkaClientConsumer.java:52-62 | one listener call as a value: the trace is handler calls on the messages in list order followed by exactly one final acknowledgement; a raised call names the failing position, which is the last message dispatched |
| `Consumer.Listener` | src/main/java/org/tplus/taskManager/taskManager_crud/kafka/KafkaClientConsumer.java:52-62 | the loop with acknowledgement in `finally` takes exactly the steps and ends exactly as `ListenerRun` says: messages handed to the handler up to the first failing one, then one acknowledgement, then a return or the failure |
| `Consumer.ListenerRunDispatchesInOrder` | src/main/java/org/tplus/taskManager/taskManager_crud/kafka/KafkaClientConsumer.java:54-61 | messages are dispatched once each, in list order, up to and including the first failing one and none after; the call returns iff no handler call failed, otherwise the failure propagates after the acknowledgement |
| `Consumer.ListenerRunAcknowledgesOnce` | src/main/java/org/tplus/taskManager/taskManager_crud/kafka/KafkaClientConsumer.java:58-60 | every call acknowledges exactly once, as its last step, on success and on failure alike |
| `Consumer.ListenerRunEmptyBatch` | src/main/java/org/tplus/taskManager/taskManager_crud/kafka/KafkaClientConsumer.java:52-60 | an empty batch dispatches nothing, returns, and is still acknowledged once |
| `Consumer.AcknowledgedEvenWhenHandlerFails` | src/main/java/org/tplus/taskManager/taskManager_crud/kafka/KafkaClientConsumer.java:56-60 | when some handler call fails, the call raises and the batch is still acknowledged |
| `Consumer.ListenerAckOnSuccess` | src/main/java/org/tplus/taskManager/taskManager_crud/kafka/KafkaClientConsumer.java:43-60 | the documented behaviour: same dispatch order, but the batch is acknowledged iff every message was handled without error |

## Left out

- Retry and back-off: the container's error handler (`FixedBackOff(1000, 3)`, with `IllegalStateException` not retried) runs inside Spring's `DefaultErrorHandler`, whose code is not part of this model. Only its constants are recorded (`Consumer.BackOffIntervalMs`, `Consumer.BackOffMaxAttempts`). Redelivery and offset advancement are not modelled.
- KafkaClientProducer: asynchronous completion callbacks, `flush`, and the default-topic `send(Long)` path with random UUID keys are left out. The task service never calls `send(Long)`. The producer appears only as an abstract send that succeeds or fails.
- Envelope encoding: JSON (de)serialization, rejection of unknown status tags, and bean validation (`@NotBlank` on the title) are done by Jackson and the framework, not by this code.
- NotificationService (SMTP/MIME), the logging aspects, wall-clock timing, and the HTTP controller are left out. They are I/O or framework wiring.
- Listing order: `Services.TaskService.GetAllTasks` returns the stored tasks in an unspecified order; the repository's `findAll` order (database order, which the integration test relies on) is not modelled.
- Concurrency between the publisher and the consumer, and broker delivery guarantees, are left out. The model is sequential.
- Java `Long` ids and user ids are unbounded integers; 64-bit overflow is not modelled. Titles, descriptions and user ids are never null in the model. The core only copies them, so null would change nothing in the proofs.

## Findings

| source | as written | input that shows it | evidently intended | confidence | as-written member | corrected member |
|---|---|---|---|---|---|---|
| src/main/java/org/tplus/taskManager/taskManager_crud/kafka/KafkaClientConsumer.java:58-60 | `ack.acknowledge()` sits in `finally`, so a batch whose handler call throws is acknowledged too | a batch of one message whose handler call raises (e.g. a mail-send failure): the call raises, and the batch is acknowledged anyway | the method's own documentation (line 43) says the batch is acknowledged after all messages were processed successfully | medium; not executed | `Consumer.Listener`, `Consumer.AcknowledgedEvenWhenHandlerFails` | `Consumer.ListenerAckOnSuccess` |

`Consumer.Listener` models the code as written, which acknowledges on failure too. The documented behaviour, acknowledging only on success, is kept as the separate member `Consumer.ListenerAckOnSuccess`.
