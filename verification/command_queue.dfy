/** Command queues (section 5.1 of the OpenCL 1.1 specification): commands
    waiting to be submitted to the queue's device, with the internal event
    handed back for each. An in-order queue submits only its front command
    and only once every event that command waits on has completed; an
    out-of-order queue never submits from its scheduler. The device's
    answer to a submission is a parameter, as are the profiler's selected
    counters and the clock; each new event is identified by a number the
    allocator gives. */
module CommandQueue {
  import opened Results
  import opened ClCodes
  import D = Diagnostics
  import C = Command
  import E = Event
  import P = Profiler
  import opened SysTime

  datatype Order = InOrder | OutOfOrder

  /** A command waiting in the queue and the number of its event. */
  datatype Pending = Pending(cmd: C.Command, event: nat)

  /** `CommandQueue`: its order, context and device, whether the device
      runs native kernels, whether profiling is enabled, the waiting
      commands (front first) and the events still alive. */
  datatype Queue = Queue(order: Order, context: nat, device: nat, nativeKernels: bool, profile: bool,
                         commands: seq<Pending>, events: set<nat>)

  /** The outcome of a scheduler run: the queue afterwards, whether it
      asks to be run again, and the command submitted, if any. */
  datatype Scheduled = Scheduled(queue: Queue, again: bool, submitted: Option<Pending>)

  /** `InOrderQueue::RunScheduler` and `OutOfOrderQueue::RunScheduler`.
      `accepts` is the device's answer were the front command submitted. */
  function RunScheduler(q: Queue, accepts: bool): (r: Scheduled)
    ensures r.queue == q.(commands := r.queue.commands)
    ensures q.order.OutOfOrder? ==> r == Scheduled(q, false, None)
    ensures q.order.InOrder? && |q.commands| == 0 ==> r == Scheduled(q, false, None)
    ensures q.order.InOrder? && |q.commands| > 0 ==>
      && (r.submitted.Some? <==> C.CanRun(q.commands[0].cmd) && accepts)
      && (r.submitted.Some? ==> r.submitted.value == q.commands[0] && r.queue.commands == q.commands[1..])
      && (r.submitted.None? ==> r.queue.commands == q.commands)
      && (r.again <==> |r.queue.commands| > 0)
  {
    if q.order.OutOfOrder? || |q.commands| == 0 then Scheduled(q, false, None)
    else if C.CanRun(q.commands[0].cmd) && accepts then
      Scheduled(q.(commands := q.commands[1..]), |q.commands| > 1, Some(q.commands[0]))
    else Scheduled(q, true, None)
  }

  /** Several scheduler runs, with the device's answer for each; the
      submitted commands in submission order. */
  function RunMany(q: Queue, answers: seq<bool>): (r: (Queue, seq<Pending>))
    ensures r.0 == q.(commands := r.0.commands)
    decreases |answers|
  {
    if |answers| == 0 then (q, [])
    else
      var s := RunScheduler(q, answers[0]);
      var rest := RunMany(s.queue, answers[1..]);
      (rest.0, (if s.submitted.Some? then [s.submitted.value] else []) + rest.1)
  }

  /** Commands leave an in-order queue in the order they were enqueued:
      what was submitted followed by what still waits is the queue as it
      was. */
  lemma {:induction false} SubmitsInOrder(q: Queue, answers: seq<bool>)
    ensures var r := RunMany(q, answers);
      r.1 + r.0.commands == q.commands
    decreases |answers|
  {
    if |answers| > 0 {
      var s := RunScheduler(q, answers[0]);
      SubmitsInOrder(s.queue, answers[1..]);
      if s.submitted.Some? {
        assert q.commands == [q.commands[0]] + q.commands[1..];
      }
    }
  }

  /** A front command still waiting on an event that has not completed
      holds back the whole in-order queue, whatever the device says. */
  lemma {:induction false} BlockedFrontHoldsQueue(q: Queue, answers: seq<bool>)
    requires q.order.InOrder? && |q.commands| > 0 && !C.CanRun(q.commands[0].cmd)
    ensures RunMany(q, answers).0 == q && RunMany(q, answers).1 == []
    decreases |answers|
  {
    if |answers| > 0 {
      assert RunScheduler(q, answers[0]) == Scheduled(q, true, None);
      BlockedFrontHoldsQueue(q, answers[1..]);
    }
  }

  /** The outcome of `Enqueue`: the queue, the event handed back (null on
      error), the code and the diagnostics. */
  datatype Enqueued = Enqueued(queue: Queue, event: Option<E.Event>, code: int, diagnostics: seq<D.Diagnostic>)

  /** The first event waited on whose context differs from the queue's. */
  function ForeignEvent(contexts: seq<nat>, ctx: nat, i: nat): (k: nat)
    requires i <= |contexts|
    ensures i <= k <= |contexts|
    ensures forall j :: i <= j < k ==> contexts[j] == ctx
    ensures k < |contexts| ==> contexts[k] != ctx
    decreases |contexts| - i
  {
    if i == |contexts| || contexts[i] != ctx then i else ForeignEvent(contexts, ctx, i + 1)
  }

  /** `CommandQueue::Enqueue`: every event waited on (whose contexts are
      `waitContexts`) must belong to the queue's context, and a native
      kernel needs a device that runs them. An accepted command gets a new
      queued event, sampled when profiling is enabled or the environment
      selects counters, goes to the back of the queue, and the scheduler
      runs once. */
  function Enqueue(q: Queue, cmd: C.Command, waitContexts: seq<nat>, id: nat,
                   toProfile: bv32, clock: Time, accepts: bool): (r: Enqueued)
    requires |waitContexts| == |cmd.waitList|
    ensures (exists j :: 0 <= j < |waitContexts| && waitContexts[j] != q.context) ==>
      r == Enqueued(q, None, CL_INVALID_CONTEXT, [D.EventsOfOtherContext])
    ensures (forall j :: 0 <= j < |waitContexts| ==> waitContexts[j] == q.context) && cmd.kind.NativeKernel? && !q.nativeKernels ==>
      r == Enqueued(q, None, CL_INVALID_OPERATION, [D.NoNativeKernels])
    ensures r.event.Some? <==>
      (forall j :: 0 <= j < |waitContexts| ==> waitContexts[j] == q.context) && (cmd.kind.NativeKernel? ==> q.nativeKernels)
    ensures r.event.Some? ==>
      && r.code == CL_SUCCESS && r.diagnostics == []
      && r.event.value.status == CL_QUEUED
      && (r.event.value.trace.enabled <==> q.profile || toProfile != 0)
      && r == Enqueued(RunScheduler(Append(q, cmd, id), accepts).queue, r.event, CL_SUCCESS, [])
  {
    var k := ForeignEvent(waitContexts, q.context, 0);
    if k < |waitContexts| then Enqueued(q, None, CL_INVALID_CONTEXT, [D.EventsOfOtherContext])
    else if cmd.kind.NativeKernel? && !q.nativeKernels then
      Enqueued(q, None, CL_INVALID_OPERATION, [D.NoNativeKernels])
    else
      var counters := if q.profile then P.CounterTime else P.CounterNone;
      var sample := P.GetSample(counters, toProfile, P.CommandEnqueued, -1, clock);
      P.GetSampleSpec(counters, toProfile, P.CommandEnqueued, -1, clock);
      var ev := E.NewInternal(sample);
      Enqueued(RunScheduler(Append(q, cmd, id), accepts).queue, Some(ev), CL_SUCCESS, [])
  }

  /** The accepted command at the back of the queue, its event alive. */
  function Append(q: Queue, cmd: C.Command, id: nat): (r: Queue)
    ensures r == q.(commands := r.commands, events := r.events)
    ensures |r.commands| == |q.commands| + 1 && r.commands[..|q.commands|] == q.commands
    ensures r.commands[|q.commands|] == Pending(cmd, id)
    ensures r.events == q.events + {id}
  {
    q.(commands := q.commands + [Pending(cmd, id)], events := q.events + {id})
  }

  /** Every waiting command's event is alive. */
  predicate EventsTracked(q: Queue) {
    forall j :: 0 <= j < |q.commands| ==> q.commands[j].event in q.events
  }

  /** Appending with a new event and running the scheduler keep the
      waiting commands' events alive. */
  lemma TrackedKept(q: Queue, cmd: C.Command, id: nat, accepts: bool)
    requires EventsTracked(q)
    ensures EventsTracked(Append(q, cmd, id))
    ensures EventsTracked(RunScheduler(q, accepts).queue)
  {
  }

  /** On an in-order queue an enqueued command, with a new event, is
      submitted by that enqueue only when nothing was waiting before it. */
  lemma EnqueueSubmitsOnlyAlone(q: Queue, cmd: C.Command, id: nat, accepts: bool)
    requires q.order.InOrder? && EventsTracked(q) && id !in q.events
    ensures var s := RunScheduler(Append(q, cmd, id), accepts);
      s.submitted == Some(Pending(cmd, id)) <==> |q.commands| == 0 && C.CanRun(cmd) && accepts
  {
    var s := RunScheduler(Append(q, cmd, id), accepts);
    if |q.commands| > 0 && s.submitted.Some? {
      assert Append(q, cmd, id).commands[0] == q.commands[0];
      assert q.commands[0].event in q.events;
    }
  }

  /** `CommandQueue::CommandDone`: the scheduler runs, then the command's
      event is forgotten. */
  function CommandDone(q: Queue, id: nat, accepts: bool): (r: Queue)
    ensures id !in r.events && r.events == q.events - {id}
    ensures r.commands == RunScheduler(q, accepts).queue.commands
  {
    RunScheduler(q, accepts).queue.(events := q.events - {id})
  }
}
