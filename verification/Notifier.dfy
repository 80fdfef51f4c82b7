/** The asynchronous notifier: a bounded queue, one worker, enqueues that never block, and a stop that drains. */
module Notifier {
  const DEFAULT_BUFFER := 32

  datatype Kind = Created | Taken | Untaken

  /** A queued notification, and equally the call it becomes on the next notifier: which method, with which event. */
  datatype Job<E> = Job(kind: Kind, event: E)

  datatype Worker<E> = NotStarted | Waiting | Busy(job: Job<E>) | Exited

  /** The whole notifier at one instant. `accepted` lists the enqueues that returned without error, in order;
      `delivered` the calls on the next notifier that have returned. */
  datatype State<E> = State(
    capacity: nat,
    hasNext: bool,
    queue: seq<Job<E>>,
    closed: bool,
    worker: Worker<E>,
    stopReturned: bool,
    accepted: seq<Job<E>>,
    delivered: seq<Job<E>>)

  datatype Reply = Queued | Ignored | QueueFull | Panicked

  datatype Step<E> =
    | StartWorker
    | Enqueue(job: Job<E>)
    | Receive                 // the worker's next turn: take a job, or leave if the queue is closed and empty
    | Finish(failed: bool)    // the next notifier returns, with or without an error
    | CloseQueue              // the first half of Stop
    | StopReturns             // the second half: waiting for the worker is over

  function New<E>(hasNext: bool, buffer: int): State<E> {
    State(if buffer <= 0 then DEFAULT_BUFFER else buffer, hasNext, [], false, NotStarted, false, [], [])
  }

  function EnqueueReply<E>(s: State<E>): Reply {
    if !s.hasNext then Ignored
    else if s.closed then Panicked
    else if |s.queue| < s.capacity then Queued
    else QueueFull
  }

  function AfterEnqueue<E>(s: State<E>, job: Job<E>): State<E> {
    if EnqueueReply(s) == Queued then s.(queue := s.queue + [job], accepted := s.accepted + [job]) else s
  }

  function AfterReceive<E>(s: State<E>): State<E> {
    if !s.worker.Waiting? then s
    else if s.queue != [] then s.(worker := Busy(s.queue[0]), queue := s.queue[1..])
    else if s.closed then s.(worker := Exited)
    else s
  }

  function AfterFinish<E>(s: State<E>): State<E> {
    if s.worker.Busy? then s.(worker := Waiting, delivered := s.delivered + [s.worker.job]) else s
  }

  /** Stop may return once the queue is closed and no worker is running. */
  predicate StopMayReturn<E>(s: State<E>) {
    s.closed && (s.worker.NotStarted? || s.worker.Exited?)
  }

  function Next<E>(s: State<E>, step: Step<E>): State<E> {
    match step
    case StartWorker => if s.hasNext && s.worker.NotStarted? then s.(worker := Waiting) else s
    case Enqueue(job) => AfterEnqueue(s, job)
    case Receive => AfterReceive(s)
    case Finish(_) => AfterFinish(s)
    case CloseQueue => s.(closed := true)
    case StopReturns => if StopMayReturn(s) then s.(stopReturned := true) else s
  }

  function Run<E>(s: State<E>, steps: seq<Step<E>>): State<E> {
    if steps == [] then s else Next(Run(s, steps[..|steps| - 1]), steps[|steps| - 1])
  }

  /** The channel returned by Done is closed when the worker has left. */
  predicate DoneClosed<E>(s: State<E>) { s.worker.Exited? }

  function InProgress<E>(s: State<E>): seq<Job<E>> {
    if s.worker.Busy? then [s.worker.job] else []
  }

  ghost predicate Inv<E>(s: State<E>) {
    && s.accepted == s.delivered + InProgress(s) + s.queue
    && |s.queue| <= s.capacity
    && (s.worker.Exited? ==> s.closed && s.queue == [])
    && (s.worker.NotStarted? ==> s.delivered == [])
    && (s.stopReturned ==> s.closed)
    && (!s.hasNext ==> s.worker.NotStarted?)
  }

  lemma ReceiveKeepsInv<E>(s: State<E>)
    requires Inv(s) && s.worker.Waiting? && s.queue != []
    ensures Inv(AfterReceive(s))
  {
  }

  lemma FinishKeepsInv<E>(s: State<E>)
    requires Inv(s) && s.worker.Busy?
    ensures Inv(AfterFinish(s))
  {
  }

  lemma NextKeepsInv<E>(s: State<E>, step: Step<E>)
    requires Inv(s)
    ensures Inv(Next(s, step))
  {
    match step
    case Enqueue(job) =>
      assert s.delivered + InProgress(s) + (s.queue + [job]) == s.delivered + InProgress(s) + s.queue + [job];
    case Receive =>
      if s.worker.Waiting? && s.queue != [] {
        ReceiveKeepsInv(s);
      }
    case Finish(_) =>
      if s.worker.Busy? {
        FinishKeepsInv(s);
      }
    case _ =>
  }

  lemma {:induction false} RunKeepsInv<E>(hasNext: bool, buffer: int, steps: seq<Step<E>>)
    ensures Inv(Run(New(hasNext, buffer), steps))
  {
    if steps != [] {
      RunKeepsInv(hasNext, buffer, steps[..|steps| - 1]);
      NextKeepsInv(Run(New<E>(hasNext, buffer), steps[..|steps| - 1]), steps[|steps| - 1]);
    }
  }

  /** At every step of every run, what was accepted is what was delivered, then the job in progress, then the queue; and
      the queue is within its capacity. Errors of the next notifier are steps like any other, so they lose nothing. */
  lemma NothingLostOrReordered<E>(hasNext: bool, buffer: int, steps: seq<Step<E>>)
    ensures var s := Run(New(hasNext, buffer), steps);
            && s.accepted == s.delivered + InProgress(s) + s.queue
            && |s.queue| <= s.capacity == (if buffer > 0 then buffer else 32)
  {
    RunKeepsInv(hasNext, buffer, steps);
    CapacityIsFixed(New(hasNext, buffer), steps);
  }

  lemma {:induction false} CapacityIsFixed<E>(s: State<E>, steps: seq<Step<E>>)
    ensures Run(s, steps).capacity == s.capacity && Run(s, steps).hasNext == s.hasNext
  {
    if steps != [] {
      CapacityIsFixed(s, steps[..|steps| - 1]);
    }
  }

  /** While the notifier is open a job is refused only if the queue is full; an accepted one joins at the end. */
  lemma RefusedOnlyWhenFull<E>(hasNext: bool, buffer: int, steps: seq<Step<E>>, job: Job<E>)
    requires hasNext && !Run(New(hasNext, buffer), steps).closed
    ensures var s := Run(New(hasNext, buffer), steps); var s' := Next(s, Enqueue(job));
            && (EnqueueReply(s) == QueueFull <==> |s.queue| == s.capacity)
            && (EnqueueReply(s) == QueueFull ==> s' == s)
            && (EnqueueReply(s) != QueueFull ==> s'.queue == s.queue + [job] && s'.accepted == s.accepted + [job])
  {
    RunKeepsInv(hasNext, buffer, steps);
    CapacityIsFixed(New(hasNext, buffer), steps);
  }

  /** When Done closes, every accepted job has been handed on, exactly once and in order, and nothing changes after. */
  lemma DoneMeansDelivered<E>(hasNext: bool, buffer: int, steps: seq<Step<E>>, more: seq<Step<E>>)
    requires DoneClosed(Run(New(hasNext, buffer), steps))
    ensures var s := Run(New(hasNext, buffer), steps); var s' := Run(New(hasNext, buffer), steps + more);
            && s.delivered == s.accepted
            && s'.delivered == s'.accepted == s.accepted && DoneClosed(s')
  {
    RunKeepsInv(hasNext, buffer, steps);
    var s := Run(New<E>(hasNext, buffer), steps);
    assert s.delivered + [] + [] == s.delivered;
    DoneIsFinal(New(hasNext, buffer), steps, more);
  }

  lemma {:induction false} DoneIsFinal<E>(s0: State<E>, steps: seq<Step<E>>, more: seq<Step<E>>)
    requires DoneClosed(Run(s0, steps)) && Run(s0, steps).closed
    ensures var s := Run(s0, steps); var s' := Run(s0, steps + more);
            DoneClosed(s') && s'.closed && s'.accepted == s.accepted && s'.delivered == s.delivered
  {
    if more == [] {
      assert steps + more == steps;
    } else {
      DoneIsFinal(s0, steps, more[..|more| - 1]);
      assert (steps + more)[..|steps + more| - 1] == steps + more[..|more| - 1];
    }
  }

  /** There is a worker exactly if Start was called on a notifier that has a next one. */
  lemma {:induction false} StartedIffStarted<E>(s: State<E>, steps: seq<Step<E>>)
    requires s.worker.NotStarted?
    ensures !Run(s, steps).worker.NotStarted? <==> s.hasNext && StartWorker in steps
  {
    if steps != [] {
      var init, last := steps[..|steps| - 1], steps[|steps| - 1];
      StartedIffStarted(s, init);
      CapacityIsFixed(s, init);
      assert steps == init + [last];
    }
  }

  /** When Stop returns, every accepted job has been handed on exactly if the worker was started before, or nothing had
      been accepted. */
  lemma StopDrainsIffStarted<E>(hasNext: bool, buffer: int, steps: seq<Step<E>>)
    requires StopMayReturn(Run(New(hasNext, buffer), steps))
    ensures var s := Run(New(hasNext, buffer), steps);
            s.delivered == s.accepted <==> (hasNext && StartWorker in steps) || s.accepted == []
  {
    RunKeepsInv(hasNext, buffer, steps);
    StartedIffStarted(New(hasNext, buffer), steps);
    var s := Run(New<E>(hasNext, buffer), steps);
    assert s.worker.Exited? ==> s.delivered + [] + [] == s.delivered;
  }

  // ---- Draining ends ----

  /** The worker's turns from here on, if it is left alone after the queue is closed; `fails` says which of the
      deliveries to come fail. */
  function DrainSteps<E>(fails: seq<bool>): seq<Step<E>> {
    if fails == [] then [Receive] else [Receive, Finish(fails[0])] + DrainSteps(fails[1..])
  }

  lemma {:induction false} RunAppend<E>(s: State<E>, a: seq<Step<E>>, b: seq<Step<E>>)
    ensures Run(s, a + b) == Run(Run(s, a), b)
  {
    if b == [] {
      assert a + b == a;
    } else {
      RunAppend(s, a, b[..|b| - 1]);
      assert (a + b)[..|a + b| - 1] == a + b[..|b| - 1];
    }
  }

  // One turn of the worker: it takes the first job and hands it on, whether or not that fails.
  lemma OneTurn<E>(s: State<E>, failed: bool)
    requires s.worker.Waiting? && s.queue != []
    ensures Run(s, [Receive, Finish(failed)]) == s.(queue := s.queue[1..], delivered := s.delivered + [s.queue[0]])
  {
    var turn: seq<Step<E>> := [Receive, Finish(failed)];
    assert turn[..1] == [Receive] && turn[..1][..0] == [];
    assert Run(s, turn[..1]) == Next(Run(s, []), Receive);
  }

  lemma LastTurn<E>(s: State<E>)
    requires s.worker.Waiting? && s.queue == [] && s.closed
    ensures Run(s, [Receive]) == s.(worker := Exited)
  {
  }

  lemma TurnThenRest<E>(s: State<E>, fails: seq<bool>)
    requires fails != []
    ensures Run(s, DrainSteps(fails)) == Run(Run(s, [Receive, Finish(fails[0])]), DrainSteps(fails[1..]))
  {
    RunAppend(s, [Receive, Finish(fails[0])], DrainSteps(fails[1..]));
  }

  /** A waiting worker on a closed queue delivers the queue in order and leaves, whichever deliveries fail, so Stop does
      return. */
  lemma {:induction false} WorkerDrains<E>(s: State<E>, fails: seq<bool>)
    requires s.worker.Waiting? && s.closed && |fails| == |s.queue|
    ensures var s' := Run(s, DrainSteps(fails));
            s'.worker.Exited? && s'.delivered == s.delivered + s.queue && s'.queue == [] && StopMayReturn(s')
    decreases |s.queue|
  {
    if s.queue == [] {
      LastTurn(s);
      assert s.delivered + [] == s.delivered;
    } else {
      OneTurn(s, fails[0]);
      var s1 := s.(queue := s.queue[1..], delivered := s.delivered + [s.queue[0]]);
      WorkerDrains(s1, fails[1..]);
      TurnThenRest(s, fails);
      assert s.delivered + [s.queue[0]] + s.queue[1..] == s.delivered + s.queue;
    }
  }

  lemma BusyDrains<E>(s: State<E>, failed: bool, fails: seq<bool>)
    requires s.worker.Busy? && s.closed && |fails| == |s.queue|
    ensures var s' := Run(s, [Finish(failed)] + DrainSteps(fails));
            StopMayReturn(s') && s'.delivered == s.delivered + [s.worker.job] + s.queue
  {
    var finish: seq<Step<E>> := [Finish(failed)];
    assert finish[..0] == [];
    assert Run(s, finish) == Next(Run(s, []), Finish(failed));
    RunAppend(s, finish, DrainSteps(fails));
    WorkerDrains(Next(s, Finish(failed)), fails);
  }

  /** The worker's turns up to its end: none if it does not run, and first the end of a delivery in progress. */
  function TurnsLeft<E>(s: State<E>, failed: bool, fails: seq<bool>): seq<Step<E>> {
    match s.worker
    case Waiting => DrainSteps(fails)
    case Busy(_) => [Finish(failed)] + DrainSteps(fails)
    case _ => []
  }

  /** Stopping returns from every reachable state, whichever deliveries fail: once the queue is closed and the worker
      has had its turns, Stop returns. Then everything accepted is delivered if the worker was ever started, and nothing
      is if not. */
  lemma StopReturnsDrained<E>(hasNext: bool, buffer: int, steps: seq<Step<E>>, failed: bool, fails: seq<bool>)
    requires |fails| == |Run(New(hasNext, buffer), steps).queue|
    ensures var s := Run(New(hasNext, buffer), steps);
            var s' := Run(Next(s, CloseQueue), TurnsLeft(s, failed, fails));
            && Next(s', StopReturns).stopReturned
            && s'.accepted == s.accepted
            && s'.delivered == (if hasNext && StartWorker in steps then s.accepted else [])
  {
    RunKeepsInv(hasNext, buffer, steps);
    StartedIffStarted(New(hasNext, buffer), steps);
    var s := Run(New<E>(hasNext, buffer), steps);
    AcceptedWhileClosed(Next(s, CloseQueue), TurnsLeft(s, failed, fails));
    TurnsDeliver(s, failed, fails);
  }

  lemma TurnsDeliver<E>(s: State<E>, failed: bool, fails: seq<bool>)
    requires Inv(s) && |fails| == |s.queue|
    ensures var s' := Run(Next(s, CloseQueue), TurnsLeft(s, failed, fails));
            && StopMayReturn(s')
            && s'.delivered == s.delivered + (if s.worker.NotStarted? then [] else InProgress(s) + s.queue)
            && s'.delivered == if s.worker.NotStarted? then [] else s.accepted
  {
    var c := Next(s, CloseQueue);
    assert s.delivered + (InProgress(s) + s.queue) == s.delivered + InProgress(s) + s.queue;
    if s.worker.Waiting? {
      WorkerDrains(c, fails);
      assert [] + s.queue == s.queue;
    } else if s.worker.Busy? {
      BusyDrains(c, failed, fails);
    } else {
      assert s.delivered + [] == s.delivered && [] + s.queue == s.queue;
    }
  }

  lemma {:induction false} AcceptedWhileClosed<E>(s: State<E>, steps: seq<Step<E>>)
    requires s.closed
    ensures Run(s, steps).closed && Run(s, steps).accepted == s.accepted
  {
    if steps != [] {
      AcceptedWhileClosed(s, steps[..|steps| - 1]);
    }
  }

  /** A notifier that is stopped before it was ever started drops what it accepted. */
  lemma StopDropsWithoutStart<E>(job: Job<E>)
    ensures var s := Run(New(true, 1), [Enqueue(job), CloseQueue]);
            StopMayReturn(s) && s.accepted == [job] && s.delivered == []
  {
    var steps := [Enqueue(job), CloseQueue];
    assert steps[..1] == [Enqueue(job)] && steps[..1][..0] == [];
    assert Run(New(true, 1), steps[..1]) == Next(New(true, 1), Enqueue(job));
  }

  // ---- The notifier object ----

  /** The next notifier: the calls it has received, each named by its method and its event, and which of them fail. */
  class Recorder<E> {
    const fails: Job<E> -> bool
    var calls: seq<Job<E>>

    constructor (fails: Job<E> -> bool)
      ensures calls == [] && this.fails == fails
    {
      this.fails := fails;
      calls := [];
    }

    method SubRequestCreated(event: E) returns (failed: bool)
      modifies this`calls
      ensures calls == old(calls) + [Job(Created, event)] && failed == fails(Job(Created, event))
    {
      calls := calls + [Job(Created, event)];
      failed := fails(Job(Created, event));
    }

    method SubRequestTaken(event: E) returns (failed: bool)
      modifies this`calls
      ensures calls == old(calls) + [Job(Taken, event)] && failed == fails(Job(Taken, event))
    {
      calls := calls + [Job(Taken, event)];
      failed := fails(Job(Taken, event));
    }

    method SubRequestUntaken(event: E) returns (failed: bool)
      modifies this`calls
      ensures calls == old(calls) + [Job(Untaken, event)] && failed == fails(Job(Untaken, event))
    {
      calls := calls + [Job(Untaken, event)];
      failed := fails(Job(Untaken, event));
    }
  }

  class AsyncNotifier<E> {
    const next: Recorder?<E>
    const capacity: nat
    var jobs: seq<Job<E>>
    var closed: bool
    var worker: Worker<E>
    ghost var accepted: seq<Job<E>>

    constructor (next: Recorder?<E>, buffer: int)
      ensures this.next == next
      ensures next != null && next.calls == [] ==> Abs() == New(true, buffer)
      ensures next == null ==> Abs() == New(false, buffer)
    {
      this.next := next;
      capacity := if buffer <= 0 then DEFAULT_BUFFER else buffer;
      jobs, closed, worker, accepted := [], false, NotStarted, [];
    }

    ghost function Abs(): State<E>
      reads this, next
    {
      State(capacity, next != null, jobs, closed, worker, false, accepted, if next == null then [] else next.calls)
    }

    /** Starting twice would set a second worker on the same queue, so it is called once. */
    method Start()
      requires next != null ==> worker.NotStarted?
      modifies this`worker
      ensures next != null ==> worker.Waiting?
      ensures next == null ==> worker == old(worker)
      ensures Abs() == Next(old(Abs()), StartWorker)
    {
      if next == null {
        return;
      }
      worker := Waiting;
    }

    method Send(job: Job<E>) returns (full: bool)
      requires next != null && !closed
      modifies this`jobs, this`accepted
      ensures Abs() == AfterEnqueue(old(Abs()), job) && full == (EnqueueReply(old(Abs())) == QueueFull)
    {
      full := |jobs| >= capacity;
      if !full {
        jobs := jobs + [job];
        accepted := accepted + [job];
      }
    }

    /** Sending on the closed queue panics, so no enqueue may follow Stop. */
    method SubRequestCreated(event: E) returns (full: bool)
      requires next != null ==> !closed
      modifies this`jobs, this`accepted
      ensures Abs() == AfterEnqueue(old(Abs()), Job(Created, event)) && full == (EnqueueReply(old(Abs())) == QueueFull)
    {
      if next == null {
        return false;
      }
      full := Send(Job(Created, event));
    }

    method SubRequestTaken(event: E) returns (full: bool)
      requires next != null ==> !closed
      modifies this`jobs, this`accepted
      ensures Abs() == AfterEnqueue(old(Abs()), Job(Taken, event)) && full == (EnqueueReply(old(Abs())) == QueueFull)
    {
      if next == null {
        return false;
      }
      full := Send(Job(Taken, event));
    }

    method SubRequestUntaken(event: E) returns (full: bool)
      requires next != null ==> !closed
      modifies this`jobs, this`accepted
      ensures Abs() == AfterEnqueue(old(Abs()), Job(Untaken, event)) && full == (EnqueueReply(old(Abs())) == QueueFull)
    {
      if next == null {
        return false;
      }
      full := Send(Job(Untaken, event));
    }

    /** Hands a job to the method of the next notifier that its kind names. */
    method Process(job: Job<E>) returns (failed: bool)
      requires next != null
      modifies next
      ensures next.calls == old(next.calls) + [job] && failed == next.fails(job)
    {
      match job.kind {
        case Created => failed := next.SubRequestCreated(job.event);
        case Taken => failed := next.SubRequestTaken(job.event);
        case Untaken => failed := next.SubRequestUntaken(job.event);
      }
    }

    /** The worker's loop on a closed queue: every job left is handed on in order; one that fails is only logged. */
    method Work() returns (failures: seq<Job<E>>)
      requires next != null && worker.Waiting?
      modifies this`jobs, this`worker, next
      ensures worker.Exited? && jobs == [] && next.calls == old(next.calls) + old(jobs)
      ensures forall job :: job in failures <==> job in old(jobs) && next.fails(job)
    {
      failures := [];
      while jobs != []
        invariant worker.Waiting?
        invariant next.calls + jobs == old(next.calls) + old(jobs)
        invariant forall job ::
            job in failures || (job in jobs && next.fails(job)) <==> job in old(jobs) && next.fails(job)
        decreases |jobs|
      {
        var job := jobs[0];
        assert jobs == [job] + jobs[1..];
        jobs := jobs[1..];
        worker := Busy(job);
        var failed := Process(job);
        if failed {
          failures := failures + [job];
        }
        worker := Waiting;
      }
      worker := Exited;
    }

    /** Stop with nobody else active, whatever the worker's state. The first call closes the queue and waits: a delivery
        in progress ends, and the worker runs its loop to the end. A worker never started leaves the queue as it is. A
        later call does nothing. */
    method Stop() returns (failures: seq<Job<E>>)
      requires Inv(Abs())
      modifies this`jobs, this`closed, this`worker, next
      ensures old(closed) ==> Abs() == old(Abs()) && failures == []
      ensures closed && accepted == old(accepted)
      ensures !old(closed) && old(worker).NotStarted? ==> Abs() == Next(old(Abs()), CloseQueue) && failures == []
      ensures !old(closed) && !old(worker).NotStarted? ==>
                && worker.Exited? && jobs == [] && next.calls == accepted
                && forall job :: job in failures <==> job in old(InProgress(Abs()) + jobs) && next.fails(job)
    {
      failures := [];
      if closed {
        return;
      }
      closed := true;
      if worker.NotStarted? {
        return;
      }
      assert accepted == next.calls + InProgress(Abs()) + jobs;
      var first: seq<Job<E>> := [];
      if worker.Busy? {
        var failed := Process(worker.job);
        first := if failed then [worker.job] else [];
        worker := Waiting;
      }
      assert accepted == next.calls + jobs;
      var others := Work();
      failures := first + others;
    }
  }
}
