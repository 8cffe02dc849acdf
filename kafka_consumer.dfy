/** KafkaClientConsumer.listener: a batch of status-update envelopes is handed
    to the notification handler one by one, in order; the batch is
    acknowledged in a `finally`, so once whether the handler failed or not. */
module Consumer {
  import opened Domain

  /** The container's error handler retries a failed batch with a fixed
      back-off of this many milliseconds ... */
  const BackOffIntervalMs: nat := 1000

  /** ... at most this many times (IllegalStateException is never retried). */
  const BackOffMaxAttempts: nat := 3

  /** What the listener does, in order: hand one message to the handler, or
      acknowledge the batch. */
  datatype Step = Dispatch(message: TaskStatusUpdateDto) | Acknowledge

  /** How a call of the listener ends: it returns, or the exception the
      handler raised on the message at `failedAt` propagates to the caller. */
  datatype ListenerOutcome = Returned | Raised(failedAt: nat)

  /** The handler calls for a list of messages, in order. */
  function Dispatches(messages: seq<TaskStatusUpdateDto>): (steps: seq<Step>)
    ensures |steps| == |messages|
    ensures forall i :: 0 <= i < |messages| ==> steps[i] == Dispatch(messages[i])
  {
    if messages == [] then [] else [Dispatch(messages[0])] + Dispatches(messages[1..])
  }

  /** The position, from `from` on, of the first handler call that fails
      among `count` calls, or `count` when none of them does. `failing` holds
      the positions of the batch whose handler call raises. */
  function FirstFailure(from: nat, count: nat, failing: set<nat>): (k: nat)
    requires from <= count
    ensures from <= k <= count
    ensures forall j :: from <= j < k ==> j !in failing
    ensures k < count ==> k in failing
    decreases count - from
  {
    if from == count || from in failing then from else FirstFailure(from + 1, count, failing)
  }

  /** One call of the listener as a value: the steps it takes and how it ends. */
  function ListenerRun(messages: seq<TaskStatusUpdateDto>, failing: set<nat>): (run: (seq<Step>, ListenerOutcome))
    ensures 1 <= |run.0| <= |messages| + 1 && run.0[|run.0| - 1] == Acknowledge
    ensures forall i :: 0 <= i < |run.0| - 1 ==> run.0[i] == Dispatch(messages[i])
    ensures run.1.Raised? ==> run.1.failedAt == |run.0| - 2 && run.1.failedAt in failing
  {
    var k := FirstFailure(0, |messages|, failing);
    if k == |messages| then (Dispatches(messages) + [Acknowledge], Returned)
    else (Dispatches(messages[..k + 1]) + [Acknowledge], Raised(k))
  }

  /** The listener on one batch: it takes exactly the steps of ListenerRun. */
  method Listener(messages: seq<TaskStatusUpdateDto>, failing: set<nat>)
    returns (trace: seq<Step>, outcome: ListenerOutcome)
    ensures (trace, outcome) == ListenerRun(messages, failing)
  {
    var dispatched: seq<TaskStatusUpdateDto> := [];
    outcome := Returned;
    var i := 0;
    // try
    while i < |messages|
      invariant 0 <= i <= |messages|
      invariant dispatched == messages[..i]
      invariant forall j :: 0 <= j < i ==> j !in failing
      invariant outcome == Returned
    {
      dispatched := dispatched + [messages[i]];  // notification handler
      if i in failing {
        outcome := Raised(i);
        break;
      }
      i := i + 1;
    }
    // finally
    trace := Dispatches(dispatched) + [Acknowledge];
    if outcome.Raised? {
      assert dispatched == messages[..i + 1];
      FirstFailureIs(0, |messages|, failing, i);
    } else {
      assert dispatched == messages;
      FirstFailureIs(0, |messages|, failing, |messages|);
    }
  }

  /** Dispatch order: every message up to and including the first failing one
      is handed to the handler, in list order, and none after it. The call
      returns exactly when no handler call failed; otherwise the failure
      reaches the caller, after the acknowledgement. */
  lemma ListenerRunDispatchesInOrder(messages: seq<TaskStatusUpdateDto>, failing: set<nat>)
    ensures var (trace, outcome) := ListenerRun(messages, failing);
            && (outcome.Returned? <==> forall j :: 0 <= j < |messages| ==> j !in failing)
            && (outcome.Returned? ==> trace == Dispatches(messages) + [Acknowledge])
            && (outcome.Raised? ==>
                  && outcome.failedAt < |messages|
                  && outcome.failedAt in failing
                  && (forall j :: 0 <= j < outcome.failedAt ==> j !in failing)
                  && trace == Dispatches(messages[..outcome.failedAt + 1]) + [Acknowledge])
  {
    var k := FirstFailure(0, |messages|, failing);
    if k < |messages| {
      assert !(forall j :: 0 <= j < |messages| ==> j !in failing);
    }
  }

  /** The batch is acknowledged exactly once per call, as the last step,
      whether the handlers succeed or not. */
  lemma {:induction false} ListenerRunAcknowledgesOnce(messages: seq<TaskStatusUpdateDto>, failing: set<nat>)
    ensures var trace := ListenerRun(messages, failing).0;
            multiset(trace)[Acknowledge] == 1 && trace[|trace| - 1] == Acknowledge
  {
    var k := FirstFailure(0, |messages|, failing);
    AcknowledgedOnce(if k == |messages| then messages else messages[..k + 1]);
  }

  /** An empty batch dispatches nothing, returns, and is still acknowledged. */
  lemma ListenerRunEmptyBatch(failing: set<nat>)
    ensures ListenerRun([], failing) == ([Acknowledge], Returned)
  {
    var none: seq<TaskStatusUpdateDto> := [];
    assert FirstFailure(0, 0, failing) == 0;
    assert Dispatches(none) + [Acknowledge] == [Acknowledge];
  }

  /** As written, the batch is acknowledged even when the handler fails: the
      acknowledgement sits in a `finally`. */
  lemma {:induction false} AcknowledgedEvenWhenHandlerFails(messages: seq<TaskStatusUpdateDto>, failing: set<nat>, j: nat)
    requires j < |messages| && j in failing
    ensures ListenerRun(messages, failing).1.Raised?
    ensures Acknowledge in ListenerRun(messages, failing).0
  {
    var k := FirstFailure(0, |messages|, failing);
    assert k <= j;
    var steps := ListenerRun(messages, failing).0;
    assert steps[|steps| - 1] == Acknowledge;
  }

  /** FirstFailure is characterised by its contract: any position with no
      failure before it that fails, or is the end, is the first failure. */
  lemma FirstFailureIs(from: nat, count: nat, failing: set<nat>, k: nat)
    requires from <= k <= count
    requires forall j :: from <= j < k ==> j !in failing
    requires k < count ==> k in failing
    ensures FirstFailure(from, count, failing) == k
  {
  }

  /** A trace of dispatches followed by one acknowledgement acknowledges once. */
  lemma AcknowledgedOnce(messages: seq<TaskStatusUpdateDto>)
    ensures multiset(Dispatches(messages) + [Acknowledge])[Acknowledge] == 1
  {
    var d := Dispatches(messages);
    assert Acknowledge !in d;
    assert multiset(d)[Acknowledge] == 0;
  }

  /** The listener as its documentation describes it: the batch is
      acknowledged only after every message was handled without error; a
      failing batch is left unacknowledged for redelivery. */
  method ListenerAckOnSuccess(messages: seq<TaskStatusUpdateDto>, failing: set<nat>)
    returns (trace: seq<Step>, outcome: ListenerOutcome)
    ensures outcome.Returned? <==> forall j :: 0 <= j < |messages| ==> j !in failing
    ensures outcome.Returned? ==> trace == Dispatches(messages) + [Acknowledge]
    ensures outcome.Raised? ==>
              && outcome.failedAt < |messages|
              && outcome.failedAt in failing
              && (forall j :: 0 <= j < outcome.failedAt ==> j !in failing)
              && trace == Dispatches(messages[..outcome.failedAt + 1])
    ensures Acknowledge in trace <==> outcome.Returned?
  {
    var dispatched: seq<TaskStatusUpdateDto> := [];
    outcome := Returned;
    var i := 0;
    while i < |messages|
      invariant 0 <= i <= |messages|
      invariant dispatched == messages[..i]
      invariant forall j :: 0 <= j < i ==> j !in failing
      invariant outcome == Returned
    {
      dispatched := dispatched + [messages[i]];
      if i in failing {
        outcome := Raised(i);
        break;
      }
      i := i + 1;
    }
    trace := Dispatches(dispatched);
    assert Acknowledge !in trace;
    if outcome.Returned? {
      assert dispatched == messages;
      trace := trace + [Acknowledge];
    }
  }
}
