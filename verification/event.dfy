/** Events: the execution status of a command as the host sees it. The
    status only moves down the order of section 5.9 of the OpenCL 1.1
    specification, `CL_QUEUED` (3) > `CL_SUBMITTED` (2) > `CL_RUNNING` (1) >
    `CL_COMPLETE` (0) > errors, because a signal carrying a greater status
    is a delayed one and is dropped. An internal event also keeps the
    profile trace of its command. */
module Event {
  import opened Results
  import opened ClCodes
  import opened Profiler

  datatype Event = Event(status: int, trace: Trace)

  /** `Event::HasCompleted`: complete or failed. */
  predicate HasCompleted(e: Event) {
    e.status == CL_COMPLETE || e.status < 0
  }

  predicate IsError(e: Event) {
    e.status < 0
  }

  /** An event after a signal, and whether the signal woke its waiters. */
  datatype Signalled = Signalled(event: Event, woken: bool)

  /** `Event::Signal`. */
  function Signal(e: Event, status: int): (r: Signalled)
    ensures r.event.trace == e.trace
    ensures r.event.status <= e.status && r.event.status <= status
    ensures r.event.status == e.status || r.event.status == status
    ensures r.woken <==> status <= e.status && HasCompleted(r.event)
  {
    if e.status < status then Signalled(e, false)
    else Signalled(e.(status := status), status == CL_COMPLETE || status < 0)
  }

  /** The least of a status and a list of statuses: the reference for a
      sequence of signals. */
  function MinStatus(s: int, ss: seq<int>): (m: int)
    ensures m <= s && forall k :: 0 <= k < |ss| ==> m <= ss[k]
    ensures m == s || exists k :: 0 <= k < |ss| && m == ss[k]
    decreases |ss|
  {
    if |ss| == 0 then s
    else
      var rest := MinStatus(if ss[0] < s then ss[0] else s, ss[1..]);
      assert forall k :: 1 <= k < |ss| ==> ss[1..][k - 1] == ss[k];
      rest
  }

  function SignalAll(e: Event, ss: seq<int>): Event
    decreases |ss|
  {
    if |ss| == 0 then e else SignalAll(Signal(e, ss[0]).event, ss[1..])
  }

  /** Whatever order signals arrive in, the status ends at the least of
      them and the initial status: delayed signals cannot move it back. */
  lemma {:induction false} SignalsTakeMinimum(e: Event, ss: seq<int>)
    ensures SignalAll(e, ss).status == MinStatus(e.status, ss)
    ensures SignalAll(e, ss).trace == e.trace
    decreases |ss|
  {
    if |ss| > 0 {
      SignalsTakeMinimum(Signal(e, ss[0]).event, ss[1..]);
    }
  }

  /** Completion is the same as a status not above `CL_COMPLETE`, so an event
      that has completed, or failed, stays so after any signal. */
  lemma CompletionIsSticky(e: Event, status: int)
    ensures HasCompleted(e) <==> e.status <= CL_COMPLETE
    ensures HasCompleted(e) ==> HasCompleted(Signal(e, status).event)
    ensures IsError(e) ==> IsError(Signal(e, status).event)
  {
  }

  /** `InternalEvent::InternalEvent`: queued, profiled iff a sample is given,
      and the sample recorded. */
  function NewInternal(sample: Option<Sample>): (r: Event)
    ensures r.status == CL_QUEUED
    ensures r.trace.enabled <==> sample.Some?
    ensures r.trace.samples == if sample.Some? then [sample.value] else []
  {
    Event(CL_QUEUED, Add(Trace(sample.Some?, []), sample))
  }

  function Record(e: Event, sample: Option<Sample>): Event {
    e.(trace := Add(e.trace, sample))
  }

  /** `InternalEvent::MarkSubmitted`: a queued event becomes submitted; one
      already further along keeps its status, and nobody is woken. */
  function MarkSubmitted(e: Event, sample: Option<Sample>): (r: Signalled)
    ensures r.event.status == if e.status < CL_SUBMITTED then e.status else CL_SUBMITTED
    ensures !r.woken
  {
    Signal(Record(e, sample), CL_SUBMITTED)
  }

  /** `InternalEvent::MarkRunning`: a queued or submitted event becomes
      running; one already complete or failed keeps its status, and nobody
      is woken. */
  function MarkRunning(e: Event, sample: Option<Sample>): (r: Signalled)
    ensures r.event.status == if e.status < CL_RUNNING then e.status else CL_RUNNING
    ensures !r.woken
  {
    Signal(Record(e, sample), CL_RUNNING)
  }

  /** `InternalEvent::MarkSubCompleted`: only the trace changes. */
  function MarkSubCompleted(e: Event, sample: Option<Sample>): (r: Event)
    ensures r.status == e.status
  {
    Record(e, sample)
  }

  /** The outcome of `MarkCompleted`: the event, whether waiters were woken,
      the diagnostic reported to the context, and whether the queue was told
      that the command is done. */
  datatype Completion = Completion(event: Event, woken: bool, diagnostic: Option<string>, queueNotified: bool)

  /** `InternalEvent::MarkCompleted`: only `CL_COMPLETE` or an error may end
      a command; another status is reported and changes nothing. */
  function MarkCompleted(e: Event, status: int, sample: Option<Sample>): (r: Completion)
    ensures status > CL_COMPLETE <==> r.diagnostic.Some?
    ensures status > CL_COMPLETE ==> r == Completion(e, false, Some("invalid event status"), false)
    ensures status <= CL_COMPLETE ==> r.queueNotified && HasCompleted(r.event) && r.woken == (status <= e.status)
  {
    if status != CL_COMPLETE && status >= 0 then Completion(e, false, Some("invalid event status"), false)
    else
      var s := Signal(Record(e, sample), status);
      Completion(s.event, s.woken, None, true)
  }

  /** Recording keeps a sorted trace sorted. */
  lemma RecordKeepsSorted(e: Event, sample: Option<Sample>)
    requires Sorted(e.trace.samples)
    ensures Sorted(Record(e, sample).trace.samples)
  {
    if e.trace.enabled && sample.Some? {
      AddKeepsSorted(e.trace, sample.value);
    }
  }

  /** A command's normal life: queued, submitted, running, completed. Each
      step lowers the status, only the last wakes waiters, and the trace
      stays ordered by label. */
  lemma NormalLifecycle(s0: Option<Sample>, s1: Option<Sample>, s2: Option<Sample>, s3: Option<Sample>)
    ensures var e0 := NewInternal(s0);
      var e1 := MarkSubmitted(e0, s1);
      var e2 := MarkRunning(e1.event, s2);
      var e3 := MarkCompleted(e2.event, CL_COMPLETE, s3);
      && e1.event.status == CL_SUBMITTED && !e1.woken
      && e2.event.status == CL_RUNNING && !e2.woken
      && e3.event.status == CL_COMPLETE && e3.woken && e3.queueNotified
      && Sorted(e3.event.trace.samples)
  {
    var e0 := NewInternal(s0);
    RecordKeepsSorted(e0, s1);
    var e1 := MarkSubmitted(e0, s1);
    RecordKeepsSorted(e1.event, s2);
    var e2 := MarkRunning(e1.event, s2);
    RecordKeepsSorted(e2.event, s3);
  }

  /** A submission that arrives after the command started running is a
      delayed signal: the event stays running, though the sample is kept. */
  lemma DelayedSubmissionIgnored(e: Event, sample: Option<Sample>)
    requires e.status == CL_RUNNING
    ensures MarkSubmitted(e, sample).event == Record(e, sample)
    ensures !MarkSubmitted(e, sample).woken
  {
  }
}
