// An Alamofire request and its tasks: locked state changes from any thread, racing with task creation, completion,
// retries and the end of the session. Every step is atomic because it runs under the request's lock or on the
// serial root queue; a run is any sequence of steps.
module RequestProtocol {

  datatype State = Initialized | Resumed | Suspended | Cancelled | Finished

  predicate CanTransitionTo(from: State, to: State)
  {
    if from.Initialized? then true
    else if to.Initialized? || from.Cancelled? || from.Finished? then false
    else if from == to then false
    else true
  }

  /** URLSessionTask.State; a task is created paused. */
  datatype Status = Running | Paused | Canceling | Completed

  function AfterResume(t: Status): Status
  {
    if t.Paused? then Running else t
  }

  function AfterSuspend(t: Status): Status
  {
    if t.Running? then Paused else t
  }

  function AfterCancel(t: Status): Status
  {
    if t.Completed? then t else Canceling
  }

  /** What a state wants done to a task: resume, suspend, or resume and cancel. */
  function Enforced(s: State, t: Status): Status
  {
    match s
    case Initialized => t
    case Finished => t
    case Resumed => AfterResume(t)
    case Suspended => AfterSuspend(t)
    case Cancelled => AfterCancel(AfterResume(t))
  }

  /** The part of the mutable state that matters here. */
  datatype View = View(state: State, tasks: seq<Status>)

  /** resume, suspend or cancel: under the lock, the state and the last task change together. */
  function Transitioned(v: View, to: State): View
  {
    if !CanTransitionTo(v.state, to) then v
    else View(to, EnforcedLast(to, v.tasks))
  }

  /** Asked to go to a state, a request that is neither cancelled nor finished is in it, and if it was not in it
      already, its last task follows, as far as a task can. */
  predicate TakesEffect(v: View, w: View, to: State)
  {
    if v.state.Cancelled? || v.state.Finished? then w == v
    else
      && w.state == to
      && |w.tasks| == |v.tasks|
      && (forall t | 0 <= t < |v.tasks| - 1 :: w.tasks[t] == v.tasks[t])
      && (v.tasks != [] ==>
            var (last, now) := (v.tasks[|v.tasks| - 1], w.tasks[|v.tasks| - 1]);
            if last.Completed? || v.state == to then now == last
            else if to.Cancelled? then now.Canceling?
            else if last.Canceling? then now.Canceling?
            else if to.Resumed? then now.Running?
            else now.Paused?)
  }

  /** There is a current task, and it is not completed. */
  predicate CurrentUncompleted(tasks: seq<Status>)
  {
    tasks != [] && !tasks[|tasks| - 1].Completed?
  }

  function AfterFinish(v: View): View
  {
    if CanTransitionTo(v.state, Finished) then v.(state := Finished) else v
  }

  function AfterAppend(v: View): View
  {
    if v.state.Finished? then v.(state := Resumed) else v
  }

  function EnforcedLast(s: State, tasks: seq<Status>): seq<Status>
  {
    if tasks == [] then tasks else tasks[|tasks| - 1 := Enforced(s, tasks[|tasks| - 1])]
  }

  class URLSessionTask {
    var status: Status

    constructor ()
      ensures status == Paused
    {
      status := Paused;
    }

    method Resume()
      modifies this
      ensures status == AfterResume(old(status))
    {
      if status.Paused? { status := Running; }
    }

    method Suspend()
      modifies this
      ensures status == AfterSuspend(old(status))
    {
      if status.Running? { status := Paused; }
    }

    method Cancel()
      modifies this
      ensures status == AfterCancel(old(status))
    {
      if !status.Completed? { status := Canceling; }
    }
  }

  class Request {
    var state: State
    var tasks: seq<URLSessionTask>
    var responseSerializerProcessingFinished: bool

    /** All tasks are different objects. */
    ghost predicate Valid()
      reads this
    {
      forall i, j | 0 <= i < j < |tasks| :: tasks[i] != tasks[j]
    }

    ghost function Value(): View
      reads this, tasks
    {
      View(state, Statuses(tasks))
    }

    constructor ()
      ensures Valid() && Value() == View(Initialized, []) && !responseSerializerProcessingFinished
    {
      state, tasks, responseSerializerProcessingFinished := Initialized, [], false;
    }

    method Resume()
      requires Valid()
      modifies this`state, tasks
      ensures Valid() && Value() == Transitioned(old(Value()), State.Resumed)
      ensures TakesEffect(old(Value()), Value(), State.Resumed)
    {
      if !CanTransitionTo(state, State.Resumed) {
        return;
      }
      state := State.Resumed;
      if |tasks| == 0 || tasks[|tasks| - 1].status == Completed {
        return;
      }
      var task := tasks[|tasks| - 1];
      task.Resume();
    }

    method Suspend()
      requires Valid()
      modifies this`state, tasks
      ensures Valid() && Value() == Transitioned(old(Value()), State.Suspended)
      ensures TakesEffect(old(Value()), Value(), State.Suspended)
    {
      if !CanTransitionTo(state, State.Suspended) {
        return;
      }
      state := State.Suspended;
      if |tasks| == 0 || tasks[|tasks| - 1].status == Completed {
        return;
      }
      var task := tasks[|tasks| - 1];
      task.Suspend();
    }

    /** finishes says that finish() was scheduled, because there is no task to cancel. */
    method Cancel() returns (finishes: bool)
      requires Valid()
      modifies this`state, tasks
      ensures Valid() && Value() == Transitioned(old(Value()), Cancelled)
      ensures TakesEffect(old(Value()), Value(), State.Cancelled)
      ensures finishes <==>
        !old(state).Cancelled? && !old(state).Finished? && !CurrentUncompleted(old(Statuses(tasks)))
    {
      if !CanTransitionTo(state, State.Cancelled) {
        return false;
      }
      state := State.Cancelled;
      if |tasks| == 0 || tasks[|tasks| - 1].status == Completed {
        return true;
      }
      var task := tasks[|tasks| - 1];
      task.Resume();
      task.Cancel();
      finishes := false;
    }

    method DidCreateTask(task: URLSessionTask)
      requires Valid() && task !in tasks
      modifies this`tasks
      ensures Valid() && tasks == old(tasks) + [task]
      ensures Value() == View(old(state), old(Statuses(tasks)) + [old(task.status)])
    {
      tasks := tasks + [task];
    }

    /** The locked part of processNextResponseSerializer when no serializer is left. */
    method FinishProcessing()
      requires Valid()
      modifies this`state, this`responseSerializerProcessingFinished
      ensures Valid() && Value() == AfterFinish(old(Value())) && responseSerializerProcessingFinished
      ensures state == if old(state).Cancelled? then State.Cancelled else State.Finished
    {
      if CanTransitionTo(state, State.Finished) {
        state := State.Finished;
      }
      responseSerializerProcessingFinished := true;
    }

    /** appendResponseSerializer; processes says that processNextResponseSerializer was scheduled. */
    method AppendResponseSerializer() returns (processes: bool)
      requires Valid()
      modifies this`state
      ensures Valid() && Value() == AfterAppend(old(Value()))
      ensures state == if old(state).Finished? then State.Resumed else old(state)
      ensures processes <==> responseSerializerProcessingFinished
    {
      if state == State.Finished {
        state := State.Resumed;
      }
      processes := responseSerializerProcessingFinished;
    }
  }

  ghost function Statuses(tasks: seq<URLSessionTask>): (r: seq<Status>)
    reads tasks
    ensures |r| == |tasks| && forall i | 0 <= i < |r| :: r[i] == tasks[i].status
  {
    seq(|tasks|, i requires 0 <= i < |tasks| reads tasks => tasks[i].status)
  }

  /** Session.updateStatesForTask: a task is brought in line with the state read under the lock. */
  method UpdateStatesForTask(task: URLSessionTask, request: Request)
    requires request.Valid() && task in request.tasks
    modifies task
    ensures task.status == Enforced(request.state, old(task.status))
    ensures forall t | 0 <= t < |request.tasks| && request.tasks[t] == task ::
      request.Value() == View(request.state, old(Statuses(request.tasks))[t := task.status])
  {
    match request.state {
      case Initialized =>
      case Finished =>
      case Resumed => task.Resume();
      case Suspended => task.Suspend();
      case Cancelled =>
        task.Resume();
        task.Cancel();
    }
  }

  // ---- the protocol ----

  /** Where the session is with one attempt at the request. The request's tasks are known by their positions. */
  datatype Attempt =
    | Setup                    // a URL request is being prepared on the queues
    | Guarded(made: Status)   // isCancelled was read as false; the new task exists but the request does not know it
    | Appended(task: nat)      // didCreateTask ran
    | Settled(task: nat)       // updateStatesForTask ran
    | Ended                    // the outcome was passed on, or the attempt was given up

  /**
    * A decision is a call of retryOrFinish, finish or processNextResponseSerializer that has not come to its end:
    * it ends in a retry or in the processing being finished.
    */
  datatype Protocol = Protocol(
    view: View,
    attempts: seq<Attempt>,
    decisions: nat,
    processed: bool,    // responseSerializerProcessingFinished
    sessionOpen: bool)  // not invalidated

  datatype Step =
    // public calls, from any thread at any time
    | Resume | Suspend | Cancel | AppendSerializer
    // the end of a decision: a retry, or no serializer is left
    | Retry | Finish
    // the session's steps for one attempt
    | CheckCancelled(a: nat) | SetupFails(a: nat) | DidCreateTask(a: nat) | UpdateStates(a: nat) | DidComplete(a: nat)
    // the system completes a task
    | TaskCompletes(t: nat)
    // the session finishes its requests, and cancels all tasks
    | SessionFinishes | Invalidate

  const START := Protocol(View(Initialized, []), [Setup], 0, false, true)

  function AfterInvalidate(x: Attempt): Attempt
  {
    if x.Guarded? then Guarded(AfterCancel(x.made)) else x
  }

  /** One step of one attempt. */
  function NextOf(p: Protocol, a: nat, step: Step): Protocol
    requires a < |p.attempts|
  {
    var v := p.view;
    match (p.attempts[a], step)
    case (Setup, CheckCancelled(_)) =>
      if v.state.Cancelled? then p.(attempts := p.attempts[a := Ended])
      else if p.sessionOpen then p.(attempts := p.attempts[a := Guarded(Paused)])
      else p
    case (Setup, SetupFails(_)) => p.(attempts := p.attempts[a := Ended], decisions := p.decisions + 1)
    case (Guarded(made), DidCreateTask(_)) =>
      p.(view := v.(tasks := v.tasks + [made]), attempts := p.attempts[a := Appended(|v.tasks|)])
    case (Appended(t), UpdateStates(_)) =>
      if t < |v.tasks| then
        p.(view := v.(tasks := v.tasks[t := Enforced(v.state, v.tasks[t])]), attempts := p.attempts[a := Settled(t)])
      else p
    case (Settled(t), DidComplete(_)) =>
      if t < |v.tasks| && v.tasks[t].Completed? then
        p.(attempts := p.attempts[a := Ended], decisions := p.decisions + 1)
      else p
    case _ => p
  }

  /** One step; a step that cannot happen in the state does nothing. */
  function Next(p: Protocol, step: Step): Protocol
  {
    var v := p.view;
    match step
    case Resume => p.(view := Transitioned(v, Resumed))
    case Suspend => p.(view := Transitioned(v, Suspended))
    case Cancel =>
      p.(view := Transitioned(v, Cancelled),
         decisions := p.decisions
           + if CanTransitionTo(v.state, Cancelled) && !CurrentUncompleted(v.tasks) then 1 else 0)
    case AppendSerializer =>
      p.(view := AfterAppend(v), decisions := p.decisions + if p.processed then 1 else 0)
    case Retry =>
      if p.decisions == 0 then p
      else p.(decisions := p.decisions - 1,
              attempts := if v.state.Cancelled? then p.attempts else p.attempts + [Setup])
    case Finish =>
      if p.decisions == 0 then p
      else p.(view := AfterFinish(v), decisions := p.decisions - 1, processed := true)
    case TaskCompletes(t) => if t < |v.tasks| then p.(view := v.(tasks := v.tasks[t := Completed])) else p
    case SessionFinishes => p.(decisions := p.decisions + 1)
    case Invalidate =>
      p.(view := v.(tasks := seq(|v.tasks|, t requires 0 <= t < |v.tasks| => AfterCancel(v.tasks[t]))),
         attempts := seq(|p.attempts|, a requires 0 <= a < |p.attempts| => AfterInvalidate(p.attempts[a])),
         sessionOpen := false)
    case _ => if step.a < |p.attempts| then NextOf(p, step.a, step) else p
  }

  function Run(p: Protocol, steps: seq<Step>): Protocol
  {
    if steps == [] then p else Next(Run(p, steps[..|steps| - 1]), steps[|steps| - 1])
  }

  lemma {:induction false} RunAppend(p: Protocol, first: seq<Step>, second: seq<Step>)
    ensures Run(p, first + second) == Run(Run(p, first), second)
    decreases |second|
  {
    hide Next;
    if second == [] {
      assert first + second == first;
    } else {
      assert (first + second)[..|first + second| - 1] == first + second[..|second| - 1];
      RunAppend(p, first, second[..|second| - 1]);
    }
  }

  lemma RunTwo(p: Protocol, x: Step, y: Step)
    ensures Run(p, [x]) == Next(p, x) && Run(p, [x, y]) == Next(Next(p, x), y)
  {
    hide Next;
    assert [x, y][..1] == [x] && [x][..0] == [];
    assert Run(p, [x]) == Next(p, x);
  }

  lemma RunThree(p: Protocol, x: Step, y: Step, z: Step)
    ensures Run(p, [x, y, z]) == Next(Next(Next(p, x), y), z)
  {
    hide Next;
    assert [x, y, z][..2] == [x, y];
    RunTwo(p, x, y);
  }

  // ---- calls take effect ----

  /** From every state but cancelled and finished each call leads to its own state, with the last task; the end of the
      processing finishes every request that is not cancelled. */
  lemma CallsTakeEffect(p: Protocol)
    ensures TakesEffect(p.view, Next(p, Resume).view, Resumed)
    ensures TakesEffect(p.view, Next(p, Suspend).view, Suspended)
    ensures TakesEffect(p.view, Next(p, Cancel).view, Cancelled)
    ensures p.decisions > 0 ==>
      && Next(p, Finish).processed && Next(p, Finish).view.tasks == p.view.tasks
      && Next(p, Finish).view.state == if p.view.state.Cancelled? then Cancelled else Finished
  {
    EffectOf(p.view, Resumed);
    EffectOf(p.view, Suspended);
    EffectOf(p.view, Cancelled);
  }

  lemma EffectOf(v: View, to: State)
    requires to.Resumed? || to.Suspended? || to.Cancelled?
    ensures TakesEffect(v, Transitioned(v, to), to)
  {
  }

  // ---- what every step keeps ----

  predicate Live(t: Status)
  {
    t.Running? || t.Paused?
  }

  predicate HasTask(x: Attempt)
  {
    x.Appended? || x.Settled?
  }

  predicate Inv(p: Protocol)
  {
    var tasks := p.view.tasks;
    && (forall a | 0 <= a < |p.attempts| && HasTask(p.attempts[a]) :: p.attempts[a].task < |tasks|)
    && (forall a, b | 0 <= a < b < |p.attempts| && HasTask(p.attempts[a]) && HasTask(p.attempts[b]) ::
          p.attempts[a].task != p.attempts[b].task)
    && (forall t | 0 <= t < |tasks| && !tasks[t].Completed? :: Appended(t) in p.attempts || Settled(t) in p.attempts)
    && (forall t | 0 <= t < |tasks| :: TaskInv(p, tasks[t]))
    && (forall a | 0 <= a < |p.attempts| && p.attempts[a].Guarded? ::
          p.attempts[a].made == if p.sessionOpen then Paused else Canceling)
  }

  predicate TaskInv(p: Protocol, t: Status)
  {
    && (t.Canceling? ==> p.view.state.Cancelled? || !p.sessionOpen)
    && (t.Running? ==> !p.view.state.Initialized?)
    && (!p.sessionOpen ==> !Live(t))
  }

  lemma StepKeepsInv(p: Protocol, step: Step)
    requires Inv(p)
    ensures Inv(Next(p, step))
  {
    var q := Next(p, step);
    match step
    case Resume => TransitionKeepsInv(p, Resumed, q);
    case Suspend => TransitionKeepsInv(p, Suspended, q);
    case Cancel => TransitionKeepsInv(p, Cancelled, q);
    case Retry => NewAttempt(p, q);
    case Invalidate => InvalidateKeepsInv(p);
    case CheckCancelled(a) => if a < |p.attempts| { AttemptKeepsInv(p, a, step); }
    case SetupFails(a) => if a < |p.attempts| { AttemptKeepsInv(p, a, step); }
    case DidCreateTask(a) => if a < |p.attempts| { AttemptKeepsInv(p, a, step); }
    case UpdateStates(a) => if a < |p.attempts| { AttemptKeepsInv(p, a, step); }
    case DidComplete(a) => if a < |p.attempts| { AttemptKeepsInv(p, a, step); }
    case _ =>
      hide NextOf, Inv;
      OtherStepKeepsInv(p, q);
  }

  lemma OtherStepKeepsInv(p: Protocol, q: Protocol)
    requires Inv(p) && q.attempts == p.attempts && q.sessionOpen == p.sessionOpen
    requires |q.view.tasks| == |p.view.tasks|
    requires forall t | 0 <= t < |p.view.tasks| :: q.view.tasks[t] == p.view.tasks[t] || q.view.tasks[t].Completed?
    requires p.view.state.Cancelled? ==> q.view.state.Cancelled?
    requires q.view.state.Initialized? ==> p.view.state.Initialized?
    ensures Inv(q)
  {
  }

  lemma TransitionKeepsInv(p: Protocol, to: State, q: Protocol)
    requires Inv(p) && !to.Initialized? && q.view == Transitioned(p.view, to)
    requires q.attempts == p.attempts && q.sessionOpen == p.sessionOpen
    ensures Inv(q)
  {
  }

  lemma NewAttempt(p: Protocol, q: Protocol)
    requires Inv(p) && q.view == p.view && q.sessionOpen == p.sessionOpen
    requires q.attempts == p.attempts || q.attempts == p.attempts + [Setup]
    ensures Inv(q)
  {
    assert forall x | x in p.attempts :: x in q.attempts;
  }

  lemma InvalidateKeepsInv(p: Protocol)
    requires Inv(p)
    ensures Inv(Next(p, Invalidate))
  {
    var q := Next(p, Invalidate);
    forall x | x in p.attempts && !x.Guarded? ensures x in q.attempts {
      var a :| 0 <= a < |p.attempts| && p.attempts[a] == x;
      assert q.attempts[a] == x;
    }
  }

  lemma AttemptKeepsInv(p: Protocol, a: nat, step: Step)
    requires Inv(p) && a < |p.attempts|
    ensures Inv(NextOf(p, a, step))
  {
    var q := NextOf(p, a, step);
    if q != p {
      assert q.attempts == p.attempts[a := q.attempts[a]];
      match p.attempts[a]
      case Setup => PhaseKeepsInv(p, a, q);
      case Guarded(_) => CreationKeepsInv(p, a, q);
      case Appended(_) => UpdateKeepsInv(p, a, q);
      case Settled(_) => PhaseKeepsInv(p, a, q);
    }
  }

  lemma Others(before: seq<Attempt>, a: nat, x: Attempt)
    requires a < |before|
    ensures x in before[a := x]
    ensures forall y | y in before && y != before[a] :: y in before[a := x]
  {
    assert before[a := x][a] == x;
    forall y | y in before && y != before[a] ensures y in before[a := x] {
      var b :| 0 <= b < |before| && before[b] == y;
      assert before[a := x][b] == y;
    }
  }

  lemma PhaseKeepsInv(p: Protocol, a: nat, q: Protocol)
    requires Inv(p) && a < |p.attempts| && q.view == p.view && q.sessionOpen == p.sessionOpen
    requires p.attempts[a].Setup? || (p.attempts[a].Settled? && p.view.tasks[p.attempts[a].task].Completed?)
    requires q.attempts == p.attempts[a := Ended] || (p.sessionOpen && q.attempts == p.attempts[a := Guarded(Paused)])
    ensures Inv(q)
  {
    Others(p.attempts, a, q.attempts[a]);
  }

  lemma CreationKeepsInv(p: Protocol, a: nat, q: Protocol)
    requires Inv(p) && a < |p.attempts| && p.attempts[a].Guarded? && q.sessionOpen == p.sessionOpen
    requires q.view == p.view.(tasks := p.view.tasks + [p.attempts[a].made])
    requires q.attempts == p.attempts[a := Appended(|p.view.tasks|)]
    ensures Inv(q)
  {
    Others(p.attempts, a, q.attempts[a]);
  }

  lemma UpdateKeepsInv(p: Protocol, a: nat, q: Protocol)
    requires Inv(p) && a < |p.attempts| && p.attempts[a].Appended? && q.sessionOpen == p.sessionOpen
    requires var (v, t) := (p.view, p.attempts[a].task);
      && q.view == v.(tasks := v.tasks[t := Enforced(v.state, v.tasks[t])])
      && q.attempts == p.attempts[a := Settled(t)]
    ensures Inv(q)
  {
    Others(p.attempts, a, q.attempts[a]);
  }

  lemma {:induction false} RunKeepsInv(p: Protocol, steps: seq<Step>)
    requires Inv(p)
    ensures Inv(Run(p, steps))
  {
    hide Next, Inv;
    if steps != [] {
      RunKeepsInv(p, steps[..|steps| - 1]);
      StepKeepsInv(Run(p, steps[..|steps| - 1]), steps[|steps| - 1]);
    }
  }

  // ---- cancellation reaches every task ----

  /** Behind a cancelled request a live task is on its way to updateStatesForTask. */
  predicate Safe(p: Protocol)
  {
    p.view.state.Cancelled? ==>
      forall t | 0 <= t < |p.view.tasks| && Live(p.view.tasks[t]) :: Appended(t) in p.attempts
  }

  /** The attempt has a live task, or may still get one. */
  predicate InFlight(p: Protocol, a: nat)
    requires a < |p.attempts|
  {
    match p.attempts[a]
    case Setup => true
    case Guarded(made) => Live(made)
    case Appended(t) => t < |p.view.tasks| && Live(p.view.tasks[t])
    case Settled(t) => t < |p.view.tasks| && Live(p.view.tasks[t])
    case Ended => false
  }

  /** At most one attempt is in flight, and only the last task is live. */
  predicate OneInFlight(p: Protocol)
  {
    && (forall a, b | 0 <= a < b < |p.attempts| :: !(InFlight(p, a) && InFlight(p, b)))
    && (forall t | 0 <= t < |p.view.tasks| - 1 :: !Live(p.view.tasks[t]))
  }

  /** An attempt starts while another one is in flight. */
  predicate Overlaps(p: Protocol, step: Step)
  {
    && step.Retry? && p.decisions > 0 && !p.view.state.Cancelled?
    && exists a :: 0 <= a < |p.attempts| && InFlight(p, a)
  }

  predicate NeverOverlaps(p: Protocol, steps: seq<Step>)
  {
    steps == []
    || (NeverOverlaps(p, steps[..|steps| - 1]) && !Overlaps(Run(p, steps[..|steps| - 1]), steps[|steps| - 1]))
  }

  lemma TaskIsInFlight(p: Protocol, t: nat) returns (a: nat)
    requires Inv(p) && t < |p.view.tasks| && Live(p.view.tasks[t])
    ensures a < |p.attempts| && HasTask(p.attempts[a]) && p.attempts[a].task == t && InFlight(p, a)
  {
    if Appended(t) in p.attempts {
      a :| 0 <= a < |p.attempts| && p.attempts[a] == Appended(t);
    } else {
      a :| 0 <= a < |p.attempts| && p.attempts[a] == Settled(t);
    }
  }

  lemma StepKeepsSafe(p: Protocol, step: Step)
    requires Inv(p) && OneInFlight(p) && Safe(p) && !Overlaps(p, step)
    ensures OneInFlight(Next(p, step)) && Safe(Next(p, step))
  {
    match step
    case Resume => TransitionKeepsSafe(p, Resumed, Next(p, step));
    case Suspend => TransitionKeepsSafe(p, Suspended, Next(p, step));
    case Cancel => TransitionKeepsSafe(p, Cancelled, Next(p, step));
    case AppendSerializer => FewerInFlight(p, Next(p, step));
    case Retry => RetryKeepsSafe(p, Next(p, step));
    case Finish => FewerInFlight(p, Next(p, step));
    case TaskCompletes(_) => FewerInFlight(p, Next(p, step));
    case SessionFinishes => FewerInFlight(p, Next(p, step));
    case Invalidate => InvalidateKeepsSafe(p);
    case _ =>
      if step.a < |p.attempts| {
        AttemptKeepsSafe(p, step.a, step);
      }
  }

  lemma FewerInFlight(p: Protocol, q: Protocol)
    requires OneInFlight(p) && Safe(p) && q.attempts == p.attempts && |q.view.tasks| == |p.view.tasks|
    requires forall t | 0 <= t < |p.view.tasks| :: q.view.tasks[t] in {p.view.tasks[t], Completed}
    requires q.view.state.Cancelled? ==> p.view.state.Cancelled?
    ensures OneInFlight(q) && Safe(q)
  {
    assert forall a: nat | a < |p.attempts| && InFlight(q, a) :: InFlight(p, a);
  }

  lemma RetryKeepsSafe(p: Protocol, q: Protocol)
    requires OneInFlight(p) && Safe(p) && q.view == p.view && !(q.attempts != p.attempts && p.view.state.Cancelled?)
    requires q.attempts == p.attempts
             || (q.attempts == p.attempts + [Setup] && forall a | 0 <= a < |p.attempts| :: !InFlight(p, a))
    ensures OneInFlight(q) && Safe(q)
  {
    assert forall a: nat | a < |p.attempts| && InFlight(q, a) :: InFlight(p, a);
  }

  lemma InvalidateKeepsSafe(p: Protocol)
    requires OneInFlight(p) && Safe(p)
    ensures OneInFlight(Next(p, Invalidate)) && Safe(Next(p, Invalidate))
  {
    assert forall a: nat | a < |p.attempts| && InFlight(Next(p, Invalidate), a) :: InFlight(p, a);
  }

  lemma TransitionKeepsSafe(p: Protocol, to: State, q: Protocol)
    requires OneInFlight(p) && Safe(p) && q.view == Transitioned(p.view, to) && q.attempts == p.attempts
    ensures OneInFlight(q) && Safe(q)
  {
    assert forall a: nat | a < |p.attempts| && InFlight(q, a) :: InFlight(p, a);
  }

  lemma AttemptKeepsSafe(p: Protocol, a: nat, step: Step)
    requires Inv(p) && OneInFlight(p) && Safe(p) && a < |p.attempts|
    ensures OneInFlight(NextOf(p, a, step)) && Safe(NextOf(p, a, step))
  {
    var q := NextOf(p, a, step);
    if q != p {
      Others(p.attempts, a, q.attempts[a]);
      match p.attempts[a]
      case Setup => PhaseKeepsSafe(p, a, q);
      case Guarded(_) => CreationKeepsSafe(p, a, q);
      case Appended(_) => UpdateKeepsSafe(p, a, q);
      case Settled(_) => PhaseKeepsSafe(p, a, q);
    }
  }

  lemma PhaseKeepsSafe(p: Protocol, a: nat, q: Protocol)
    requires OneInFlight(p) && Safe(p) && a < |p.attempts| && q.view == p.view
    requires |q.attempts| == |p.attempts|
    requires p.attempts[a].Setup? || (p.attempts[a].Settled? && q.attempts[a].Ended?)
    requires q.attempts == p.attempts[a := q.attempts[a]] && !HasTask(q.attempts[a])
    requires forall y | y in p.attempts && y != p.attempts[a] :: y in q.attempts
    ensures OneInFlight(q) && Safe(q)
  {
    assert forall b: nat | b < |p.attempts| && InFlight(q, b) :: InFlight(p, b);
  }

  lemma CreationKeepsSafe(p: Protocol, a: nat, q: Protocol)
    requires Inv(p) && OneInFlight(p) && Safe(p) && a < |p.attempts| && p.attempts[a].Guarded?
    requires q.view == p.view.(tasks := p.view.tasks + [p.attempts[a].made])
    requires q.attempts == p.attempts[a := Appended(|p.view.tasks|)]
    requires Appended(|p.view.tasks|) in q.attempts
    requires forall y | y in p.attempts && y != p.attempts[a] :: y in q.attempts
    ensures OneInFlight(q) && Safe(q)
  {
    if Live(p.attempts[a].made) {
      assert InFlight(p, a);
      forall t | 0 <= t < |p.view.tasks| ensures !Live(p.view.tasks[t]) {
        if Live(p.view.tasks[t]) {
          var b := TaskIsInFlight(p, t);
          assert false;
        }
      }
    }
    assert forall b: nat | b < |p.attempts| && InFlight(q, b) :: InFlight(p, b);
  }

  lemma UpdateKeepsSafe(p: Protocol, a: nat, q: Protocol)
    requires Inv(p) && OneInFlight(p) && Safe(p) && a < |p.attempts| && p.attempts[a].Appended?
    requires var (v, t) := (p.view, p.attempts[a].task);
      && q.view == v.(tasks := v.tasks[t := Enforced(v.state, v.tasks[t])])
      && q.attempts == p.attempts[a := Settled(t)]
    requires forall y | y in p.attempts && y != p.attempts[a] :: y in q.attempts
    ensures OneInFlight(q) && Safe(q)
  {
    assert forall b: nat | b < |p.attempts| && InFlight(q, b) :: InFlight(p, b);
  }

  lemma {:induction false} RunKeepsSafe(p: Protocol, steps: seq<Step>)
    requires Inv(p) && OneInFlight(p) && Safe(p) && NeverOverlaps(p, steps)
    ensures OneInFlight(Run(p, steps)) && Safe(Run(p, steps))
  {
    hide Next, Inv, OneInFlight, Safe, Overlaps;
    if steps != [] {
      RunKeepsSafe(p, steps[..|steps| - 1]);
      RunKeepsInv(p, steps[..|steps| - 1]);
      StepKeepsSafe(Run(p, steps[..|steps| - 1]), steps[|steps| - 1]);
    }
  }

  predicate AlwaysOneInFlight(p: Protocol, steps: seq<Step>)
  {
    OneInFlight(Run(p, steps)) && (steps == [] || AlwaysOneInFlight(p, steps[..|steps| - 1]))
  }

  /** After every step at most one attempt is in flight, with the last task, exactly when none starts too early. */
  lemma {:induction false} OneAttemptAtATime(steps: seq<Step>)
    ensures AlwaysOneInFlight(START, steps) <==> NeverOverlaps(START, steps)
  {
    hide Next, OneInFlight, Overlaps;
    assert OneInFlight(START) by { StartIsSafe(); }
    if steps != [] {
      var before := steps[..|steps| - 1];
      OneAttemptAtATime(before);
      if Overlaps(Run(START, before), steps[|steps| - 1]) {
        OverlapIsTwo(Run(START, before), steps[|steps| - 1]);
      } else if NeverOverlaps(START, before) {
        StartIsSafe();
        RunKeepsSafe(START, steps);
      }
    }
  }

  lemma StartIsSafe()
    ensures Inv(START) && OneInFlight(START) && Safe(START)
  {
  }

  lemma OverlapIsTwo(p: Protocol, step: Step)
    requires Overlaps(p, step)
    ensures !OneInFlight(Next(p, step))
  {
    var a :| 0 <= a < |p.attempts| && InFlight(p, a);
    var q := Next(p, step);
    assert InFlight(q, a) && InFlight(q, |p.attempts|);
  }

  /** No interleaving leaves a live task behind a cancelled request, while no attempt starts with another in flight:
      each task is canceling or completed, or about to pass updateStatesForTask, which cancels it. */
  lemma NoLiveTaskBehindCancel(steps: seq<Step>)
    requires NeverOverlaps(START, steps)
    ensures Safe(Run(START, steps))
  {
    StartIsSafe();
    RunKeepsSafe(START, steps);
  }

  // ---- and only then ----

  /** The steps that take an attempt past updateStatesForTask. */
  function Drive(a: nat): seq<Step>
  {
    [CheckCancelled(a), DidCreateTask(a), UpdateStates(a)]
  }

  /** The attempt keeps its task and stays in flight, and nothing else loses a live task. */
  predicate Onward(p: Protocol, q: Protocol, a: nat)
  {
    && q.sessionOpen == p.sessionOpen && q.view.state == p.view.state
    && |q.attempts| == |p.attempts| && a < |p.attempts|
    && (forall b | 0 <= b < |p.attempts| && b != a :: q.attempts[b] == p.attempts[b])
    && InFlight(q, a)
    && (HasTask(p.attempts[a]) ==> HasTask(q.attempts[a]) && q.attempts[a].task == p.attempts[a].task)
    && |q.view.tasks| >= |p.view.tasks|
    && (forall t | 0 <= t < |p.view.tasks| && Live(p.view.tasks[t]) :: Live(q.view.tasks[t]))
  }

  predicate Drivable(p: Protocol, a: nat)
  {
    p.sessionOpen && !p.view.state.Cancelled? && a < |p.attempts| && InFlight(p, a)
  }

  lemma CheckOnward(p: Protocol, a: nat)
    requires Drivable(p, a)
    ensures var q := Next(p, CheckCancelled(a)); Onward(p, q, a) && !q.attempts[a].Setup?
  {
  }

  lemma CreateOnward(p: Protocol, a: nat)
    requires Drivable(p, a) && !p.attempts[a].Setup?
    ensures var q := Next(p, DidCreateTask(a)); Onward(p, q, a) && HasTask(q.attempts[a])
  {
  }

  lemma UpdateOnward(p: Protocol, a: nat)
    requires Drivable(p, a) && HasTask(p.attempts[a])
    ensures var q := Next(p, UpdateStates(a)); Onward(p, q, a) && q.attempts[a].Settled?
  {
  }

  lemma DriveSettles(p: Protocol, a: nat) returns (q: Protocol)
    requires Inv(p) && Drivable(p, a)
    ensures q == Run(p, Drive(a)) && Inv(q) && Onward(p, q, a) && q.attempts[a].Settled?
  {
    var x := Next(p, CheckCancelled(a));
    var y := Next(x, DidCreateTask(a));
    q := Next(y, UpdateStates(a));
    RunThree(p, CheckCancelled(a), DidCreateTask(a), UpdateStates(a));
    RunKeepsInv(p, Drive(a));
    hide Inv, Next, InFlight, Run, Live;
    CheckOnward(p, a);
    CreateOnward(x, a);
    UpdateOnward(y, a);
  }

  /** A settled live task that is not the last one survives cancellation. */
  lemma LeftBehind(p: Protocol, a: nat)
    requires Inv(p) && !p.view.state.Cancelled? && a < |p.attempts| && p.attempts[a].Settled?
    requires p.attempts[a].task < |p.view.tasks| - 1 && Live(p.view.tasks[p.attempts[a].task])
    ensures !Safe(Run(p, [AppendSerializer, Cancel]))
  {
    RunTwo(p, AppendSerializer, Cancel);
    AppendThenCancel(p);
    NotAppended(p, a);
    hide Run, Next, Inv;
    assert Live(EnforcedLast(Cancelled, p.view.tasks)[p.attempts[a].task]);
  }

  lemma AppendThenCancel(p: Protocol)
    requires !p.view.state.Cancelled?
    ensures var q := Next(Next(p, AppendSerializer), Cancel);
      q.view == View(Cancelled, EnforcedLast(Cancelled, p.view.tasks)) && q.attempts == p.attempts
  {
  }

  lemma NotAppended(p: Protocol, a: nat)
    requires Inv(p) && a < |p.attempts| && p.attempts[a].Settled?
    ensures Appended(p.attempts[a].task) !in p.attempts
  {
  }

  /** From a state with more than one attempt in flight, some way to go on without any retry is unsafe. */
  /** From a state with more than one attempt in flight, some way to go on without any retry is unsafe. */
  lemma TooManyInFlight(p: Protocol) returns (more: seq<Step>)
    requires Inv(p) && p.sessionOpen && !p.view.state.Cancelled? && !OneInFlight(p)
    ensures Retry !in more && !Safe(Run(p, more))
  {
    if t :| 0 <= t < |p.view.tasks| - 1 && Live(p.view.tasks[t]) {
      more := OldTaskLive(p, t);
    } else {
      var a, b :| 0 <= a < b < |p.attempts| && InFlight(p, a) && InFlight(p, b);
      more := TwoInFlight(p, a, b);
    }
  }

  lemma OldTaskLive(p: Protocol, t: nat) returns (more: seq<Step>)
    requires Inv(p) && p.sessionOpen && !p.view.state.Cancelled? && t < |p.view.tasks| - 1 && Live(p.view.tasks[t])
    ensures Retry !in more && !Safe(Run(p, more))
  {
    var last := [AppendSerializer, Cancel];
    hide Inv, Run, Safe, Next;
    var a := TaskIsInFlight(p, t);
    var q := DriveSettles(p, a);
    LeftBehind(q, a);
    RunAppend(p, Drive(a), last);
    more := Drive(a) + last;
  }

  lemma TwoInFlight(p: Protocol, a: nat, b: nat) returns (more: seq<Step>)
    requires Inv(p) && p.sessionOpen && !p.view.state.Cancelled? && a < b < |p.attempts|
    requires InFlight(p, a) && InFlight(p, b)
    ensures Retry !in more && !Safe(Run(p, more))
  {
    var last := [AppendSerializer, Cancel];
    hide Run, Safe, Next;
    var q := DriveSettles(p, a);
    StillInFlight(p, q, b);
    var r := DriveSettles(q, b);
    StillInFlight(q, r, a);
    LaterOneLeftBehind(r, a, b);
    hide Inv, InFlight, Onward;
    RunAppend(p, Drive(a), Drive(b));
    RunAppend(p, Drive(a) + Drive(b), last);
    more := Drive(a) + Drive(b) + last;
  }

  lemma LaterOneLeftBehind(r: Protocol, a: nat, b: nat)
    requires Inv(r) && !r.view.state.Cancelled? && a < b < |r.attempts|
    requires r.attempts[a].Settled? && r.attempts[b].Settled? && InFlight(r, a) && InFlight(r, b)
    ensures !Safe(Run(r, [AppendSerializer, Cancel]))
  {
    var c := if r.attempts[a].task < r.attempts[b].task then a else b;
    assert r.attempts[c].task < |r.view.tasks| - 1 && Live(r.view.tasks[r.attempts[c].task]);
    LeftBehind(r, c);
  }

  lemma StillInFlight(p: Protocol, q: Protocol, b: nat)
    requires b < |p.attempts| && b < |q.attempts| && q.attempts[b] == p.attempts[b] && InFlight(p, b)
    requires |q.view.tasks| >= |p.view.tasks|
    requires forall t | 0 <= t < |p.view.tasks| && Live(p.view.tasks[t]) :: Live(q.view.tasks[t])
    ensures InFlight(q, b)
  {
  }

  lemma {:induction false} NoRetryNoOverlap(p: Protocol, steps: seq<Step>)
    requires Retry !in steps
    ensures NeverOverlaps(p, steps)
  {
    if steps != [] {
      NoRetryNoOverlap(p, steps[..|steps| - 1]);
    }
  }

  /** At any moment of any run before cancellation: whatever happens next short of another retry, cancellation will
      reach every live task, exactly when at most one attempt is in flight, with the last task. */
  lemma CancelReachesExactly(steps: seq<Step>)
    requires !Run(START, steps).view.state.Cancelled? && Run(START, steps).sessionOpen
    ensures (forall more | Retry !in more :: Safe(Run(Run(START, steps), more))) <==> OneInFlight(Run(START, steps))
  {
    var p := Run(START, steps);
    StartIsSafe();
    RunKeepsInv(START, steps);
    hide Run, Inv, OneInFlight;
    if OneInFlight(p) {
      forall more: seq<Step> | Retry !in more ensures Safe(Run(p, more)) {
        NoRetryNoOverlap(p, more);
        RunKeepsSafe(p, more);
      }
    } else {
      var more := TooManyInFlight(p);
    }
  }

  // ---- decisions ----

  /** Number of attempts that satisfy a property. */
  function Tally(attempts: seq<Attempt>, sel: Attempt -> bool): nat
  {
    if attempts == [] then 0
    else Tally(attempts[..|attempts| - 1], sel) + if sel(attempts[|attempts| - 1]) then 1 else 0
  }

  lemma {:induction false} TallyUpdate(attempts: seq<Attempt>, a: nat, x: Attempt, sel: Attempt -> bool)
    requires a < |attempts|
    ensures Tally(attempts[a := x], sel) + (if sel(attempts[a]) then 1 else 0)
         == Tally(attempts, sel) + if sel(x) then 1 else 0
    decreases |attempts|
  {
    var n := |attempts| - 1;
    if a < n {
      TallyUpdate(attempts[..n], a, x, sel);
      assert attempts[a := x][..n] == attempts[..n][a := x];
    } else {
      assert attempts[a := x][..n] == attempts[..n];
    }
  }

  lemma {:induction false} TallySame(before: seq<Attempt>, after: seq<Attempt>, sel: Attempt -> bool)
    requires |before| == |after| && forall a | 0 <= a < |before| :: sel(before[a]) == sel(after[a])
    ensures Tally(before, sel) == Tally(after, sel)
    decreases |before|
  {
    if before != [] {
      TallySame(before[..|before| - 1], after[..|after| - 1], sel);
    }
  }

  lemma {:induction false} TallyCounts(attempts: seq<Attempt>, a: nat, sel: Attempt -> bool)
    requires a < |attempts| && sel(attempts[a])
    ensures Tally(attempts, sel) > 0
    decreases |attempts|
  {
    if a < |attempts| - 1 {
      TallyCounts(attempts[..|attempts| - 1], a, sel);
    }
  }

  const UNENDED: Attempt -> bool := (x: Attempt) => !x.Ended?
  const GUARDED: Attempt -> bool := (x: Attempt) => x.Guarded?

  /** Attempts that have not ended, and decisions about what follows those that have. */
  function Activity(p: Protocol): nat
  {
    Tally(p.attempts, UNENDED) + p.decisions
  }

  /** A decision arises beside an attempt or another decision: a serializer is appended after the processing was
      finished once, or the session finishes the request. */
  predicate Doubles(p: Protocol, step: Step)
  {
    && ((step.AppendSerializer? && p.processed) || step.SessionFinishes?)
    && Activity(p) > 0 && !p.view.state.Cancelled?
  }

  predicate NeverDoubles(p: Protocol, steps: seq<Step>)
  {
    steps == []
    || (NeverDoubles(p, steps[..|steps| - 1]) && !Doubles(Run(p, steps[..|steps| - 1]), steps[|steps| - 1]))
  }

  /** An attempt hands over to one decision, and a decision to one attempt. */
  /** An attempt hands over to one decision, and a decision to one attempt. */
  lemma StepKeepsActivity(p: Protocol, step: Step)
    requires (p.view.state.Cancelled? || Activity(p) <= 1) && !Doubles(p, step)
    ensures Next(p, step).view.state.Cancelled? || Activity(Next(p, step)) <= 1
  {
    var q := Next(p, step);
    match step
    case Retry =>
      assert (p.attempts + [Setup])[..|p.attempts|] == p.attempts;
    case Invalidate =>
      TallySame(p.attempts, q.attempts, UNENDED);
    case Resume =>
    case Suspend =>
    case Cancel =>
    case AppendSerializer =>
    case Finish =>
    case TaskCompletes(_) =>
    case SessionFinishes =>
    case _ =>
      if q != p {
        AttemptKeepsActivity(p, step.a, step);
      }
  }

  lemma AttemptKeepsActivity(p: Protocol, a: nat, step: Step)
    requires a < |p.attempts|
    ensures var q := NextOf(p, a, step); Activity(q) <= Activity(p) && q.view.state == p.view.state
  {
    UpdateKeepsActivity(p, a, NextOf(p, a, step));
  }

  lemma UpdateKeepsActivity(p: Protocol, a: nat, q: Protocol)
    requires q == p
             || (a < |p.attempts| && |q.attempts| == |p.attempts| && q.attempts == p.attempts[a := q.attempts[a]])
    requires q != p ==> UNENDED(p.attempts[a]) && q.decisions <= p.decisions + if UNENDED(q.attempts[a]) then 0 else 1
    ensures Activity(q) <= Activity(p)
  {
    if q != p {
      TallyUpdate(p.attempts, a, q.attempts[a], UNENDED);
    }
  }

  lemma {:induction false} RunKeepsActivity(steps: seq<Step>)
    requires NeverDoubles(START, steps)
    ensures Run(START, steps).view.state.Cancelled? || Activity(Run(START, steps)) <= 1
  {
    hide Next, Doubles, Activity;
    if steps == [] {
      OneActivity();
    } else {
      RunKeepsActivity(steps[..|steps| - 1]);
      StepKeepsActivity(Run(START, steps[..|steps| - 1]), steps[|steps| - 1]);
    }
  }

  lemma OneActivity()
    ensures Activity(START) == 1
  {
    assert [Setup][..0] == [];
  }

  /** As long as no decision arises beside another activity, no attempt starts while another is in flight. */
  lemma {:induction false} OneDecisionOneAttempt(steps: seq<Step>)
    requires NeverDoubles(START, steps)
    ensures NeverOverlaps(START, steps)
  {
    hide Next, Doubles;
    if steps != [] {
      var before := steps[..|steps| - 1];
      OneDecisionOneAttempt(before);
      RunKeepsActivity(before);
      var p := Run(START, before);
      if a :| Overlaps(p, steps[|steps| - 1]) && 0 <= a < |p.attempts| && InFlight(p, a) {
        TallyCounts(p.attempts, a, UNENDED);
        assert false;
      }
    }
  }

  // ---- tasks follow the state ----

  /** The task is where the state wants it, or completed. */
  predicate Matches(s: State, t: Status)
  {
    t.Completed? ||
    match s
    case Initialized => t.Paused?
    case Resumed => t.Running?
    case Suspended => t.Paused?
    case Cancelled => t.Canceling?
    case Finished => true
  }

  predicate HasSettled(p: Protocol, a: nat)
  {
    a < |p.attempts| && p.attempts[a].Settled? && p.attempts[a].task < |p.view.tasks|
  }

  function SettledStatus(p: Protocol, a: nat): Status
    requires HasSettled(p, a)
  {
    p.view.tasks[p.attempts[a].task]
  }

  /** Each task that passed updateStatesForTask matches the request's state. */
  ghost predicate InLine(p: Protocol)
  {
    forall a: nat | HasSettled(p, a) :: Matches(p.view.state, SettledStatus(p, a))
  }

  /** The state still asks something of its task. */
  predicate Open(s: State)
  {
    s.Initialized? || s.Resumed? || s.Suspended?
  }

  /** The transition leaves a settled task other than the last one where it was. */
  ghost predicate Misses(p: Protocol, to: State)
  {
    && CanTransitionTo(p.view.state, to) && !(p.view.state.Initialized? && to.Suspended?)
    && exists a: nat ::
         HasSettled(p, a) && p.attempts[a].task < |p.view.tasks| - 1 && !SettledStatus(p, a).Completed?
  }

  /**
    * The steps that put a settled task out of line: a transition that misses it; a serializer appended to a finished
    * request, which turns the state to resumed and resumes no task; and the invalidation of the session while the
    * state is open, for a task then settled or settled later.
    */
  ghost predicate Strands(p: Protocol, step: Step)
  {
    match step
    case Resume => Misses(p, Resumed)
    case Suspend => Misses(p, Suspended)
    case Cancel => Misses(p, Cancelled)
    case AppendSerializer =>
      && p.view.state.Finished?
      && exists a: nat :: HasSettled(p, a) && (SettledStatus(p, a).Paused? || SettledStatus(p, a).Canceling?)
    case UpdateStates(a) =>
      && Open(p.view.state) && a < |p.attempts| && p.attempts[a].Appended?
      && p.attempts[a].task < |p.view.tasks| && p.view.tasks[p.attempts[a].task].Canceling?
    case Invalidate => Open(p.view.state) && exists a: nat :: HasSettled(p, a) && Live(SettledStatus(p, a))
    case _ => false
  }

  /** Every step keeps the settled tasks in line with the state, except exactly the stranding ones. */
  lemma StepKeepsInLine(p: Protocol, step: Step)
    requires Inv(p) && InLine(p)
    ensures InLine(Next(p, step)) <==> !Strands(p, step)
  {
    var q := Next(p, step);
    match step
    case Resume => TransitionInLine(p, Resumed, q);
    case Suspend => TransitionInLine(p, Suspended, q);
    case Cancel => TransitionInLine(p, Cancelled, q);
    case AppendSerializer => AppendInLine(p, q);
    case Retry =>
      assert forall a: nat | HasSettled(q, a) :: HasSettled(p, a) && SettledStatus(q, a) == SettledStatus(p, a);
    case Finish =>
      assert forall a: nat | HasSettled(q, a) :: HasSettled(p, a) && SettledStatus(q, a) == SettledStatus(p, a);
    case TaskCompletes(_) =>
      assert forall a: nat | HasSettled(q, a) :: HasSettled(p, a);
    case SessionFinishes =>
      assert forall a: nat | HasSettled(q, a) :: HasSettled(p, a) && SettledStatus(q, a) == SettledStatus(p, a);
    case Invalidate => InvalidateInLine(p, q);
    case _ =>
      if step.a < |p.attempts| {
        AttemptInLine(p, step.a, step);
      }
  }

  lemma TransitionInLine(p: Protocol, to: State, q: Protocol)
    requires Inv(p) && InLine(p) && (to.Resumed? || to.Suspended? || to.Cancelled?)
    requires q.view == Transitioned(p.view, to) && q.attempts == p.attempts
    ensures InLine(q) <==> !Misses(p, to)
  {
    forall a: nat ensures HasSettled(q, a) <==> HasSettled(p, a) {
    }
    if a: nat :| CanTransitionTo(p.view.state, to) && HasSettled(p, a) && p.attempts[a].task < |p.view.tasks| - 1
                 && !SettledStatus(p, a).Completed? {
      assert HasSettled(q, a) && SettledStatus(q, a) == SettledStatus(p, a);
      assert Matches(to, SettledStatus(q, a)) <==> p.view.state.Initialized? && to.Suspended?;
    }
  }

  lemma AppendInLine(p: Protocol, q: Protocol)
    requires Inv(p) && InLine(p) && q.view == AfterAppend(p.view) && q.attempts == p.attempts
    ensures InLine(q) <==> !Strands(p, AppendSerializer)
  {
    forall a: nat ensures HasSettled(q, a) <==> HasSettled(p, a) {
    }
    if a: nat :| p.view.state.Finished? && HasSettled(p, a)
                 && (SettledStatus(p, a).Paused? || SettledStatus(p, a).Canceling?) {
      assert HasSettled(q, a) && !Matches(q.view.state, SettledStatus(q, a));
    }
  }

  lemma InvalidateInLine(p: Protocol, q: Protocol)
    requires Inv(p) && InLine(p) && q == Next(p, Invalidate)
    ensures InLine(q) <==> !Strands(p, Invalidate)
  {
    forall a: nat ensures HasSettled(q, a) <==> HasSettled(p, a) {
    }
    if a: nat :| Open(p.view.state) && HasSettled(p, a) && Live(SettledStatus(p, a)) {
      assert HasSettled(q, a) && !Matches(q.view.state, SettledStatus(q, a));
    }
  }

  lemma AttemptInLine(p: Protocol, a: nat, step: Step)
    requires Inv(p) && InLine(p) && a < |p.attempts|
    requires step.CheckCancelled? || step.SetupFails? || step.DidCreateTask? || step.UpdateStates? || step.DidComplete?
    requires step.a == a
    ensures InLine(NextOf(p, a, step)) <==> !Strands(p, step)
  {
    var q := NextOf(p, a, step);
    forall b: nat | b != a && HasSettled(q, b)
      ensures HasSettled(p, b) && SettledStatus(q, b) == SettledStatus(p, b)
    {
    }
    if step.UpdateStates? && p.attempts[a].Appended? {
      assert HasSettled(q, a);
    }
  }

  ghost predicate NeverStrands(p: Protocol, steps: seq<Step>)
  {
    steps == []
    || (NeverStrands(p, steps[..|steps| - 1]) && !Strands(Run(p, steps[..|steps| - 1]), steps[|steps| - 1]))
  }

  /** The settled tasks were in line with the state after every step so far. */
  ghost predicate AlwaysInLine(p: Protocol, steps: seq<Step>)
  {
    InLine(Run(p, steps)) && (steps == [] || AlwaysInLine(p, steps[..|steps| - 1]))
  }

  lemma StartInLine()
    ensures InLine(START)
  {
  }

  /** Once updateStatesForTask has run, an uncompleted task's status matches the request's state throughout a run,
      retries included, exactly when no step of the run strands it. */
  lemma {:induction false} TaskFollowsState(steps: seq<Step>)
    ensures AlwaysInLine(START, steps) <==> NeverStrands(START, steps)
  {
    hide Next, InLine, Strands, Inv;
    if steps == [] {
      StartInLine();
    } else {
      var before := steps[..|steps| - 1];
      TaskFollowsState(before);
      StartIsSafe();
      RunKeepsInv(START, before);
      if AlwaysInLine(START, before) {
        StepKeepsInLine(Run(START, before), steps[|steps| - 1]);
      }
    }
  }

  /** The request's processing never finishes, and its session neither finishes it nor is invalidated. */
  predicate NeverFinishes(steps: seq<Step>)
  {
    Finish !in steps && SessionFinishes !in steps && Invalidate !in steps
  }

  lemma {:induction false} UnfinishedRun(steps: seq<Step>)
    requires NeverFinishes(steps)
    ensures Unfinished(Run(START, steps)) && NeverDoubles(START, steps)
  {
    hide Next, Doubles, Unfinished;
    assert Unfinished(START) by { StartUnfinished(); }
    if steps != [] {
      var before, step := steps[..|steps| - 1], steps[|steps| - 1];
      assert NeverFinishes(before);
      UnfinishedRun(before);
      UnfinishedStep(Run(START, before), step);
    }
  }

  predicate Unfinished(p: Protocol)
  {
    !p.processed && !p.view.state.Finished? && p.sessionOpen
  }

  lemma StartUnfinished()
    ensures Unfinished(START)
  {
  }

  lemma UnfinishedStep(p: Protocol, step: Step)
    requires Unfinished(p) && !step.Finish? && !step.SessionFinishes? && !step.Invalidate?
    ensures Unfinished(Next(p, step)) && !Doubles(p, step)
  {
    if step.CheckCancelled? || step.SetupFails? || step.DidCreateTask? || step.UpdateStates? || step.DidComplete? {
      assert step.a < |p.attempts| ==> Unfinished(NextOf(p, step.a, step));
    }
  }

  lemma OneInFlightMissesNothing(p: Protocol, step: Step)
    requires Inv(p) && OneInFlight(p) && Unfinished(p) && !step.Invalidate?
    ensures !Strands(p, step)
  {
  }

  /** Until the request finishes nothing strands a task and no attempts overlap: whatever the interleaving, status and
      state match, and cancellation reaches every task. */
  lemma {:induction false} InLineUntilFinish(steps: seq<Step>)
    requires NeverFinishes(steps)
    ensures AlwaysInLine(START, steps) && Safe(Run(START, steps))
  {
    hide Next, InLine, Strands, Inv, OneInFlight, Safe;
    StartIsSafe();
    StartInLine();
    UnfinishedRun(steps);
    OneDecisionOneAttempt(steps);
    RunKeepsSafe(START, steps);
    if steps != [] {
      var before := steps[..|steps| - 1];
      InLineUntilFinish(before);
      UnfinishedRun(before);
      RunKeepsInv(START, before);
      RunKeepsSafe(START, before);
      OneInFlightMissesNothing(Run(START, before), steps[|steps| - 1]);
      StepKeepsInLine(Run(START, before), steps[|steps| - 1]);
    }
  }

  // ---- runs that go wrong ----

  /** The session is closed: it finishes a suspended request and cancels its task; a serializer appended then
      leaves a resumed request with a canceling task. */
  lemma StrandedRun()
    ensures var p := Run(START, Drive(0) + [Suspend, SessionFinishes, Finish] + [Invalidate, AppendSerializer]);
      p.view == View(Resumed, [Canceling]) && p.attempts == [Settled(0)] && !InLine(p)
  {
    var middle := [Suspend, SessionFinishes, Finish];
    var p := START.(view := View(Initialized, [Paused]), attempts := [Settled(0)]);
    var q := p.(view := View(Finished, [Paused]), processed := true);
    FirstDrive(p);
    FinishedSuspended(p, q);
    ClosedAndAppended(q);
    RunAppend(START, Drive(0), middle);
    RunAppend(START, Drive(0) + middle, [Invalidate, AppendSerializer]);
  }

  lemma FirstDrive(p: Protocol)
    requires p == START.(view := View(Initialized, [Paused]), attempts := [Settled(0)])
    ensures Run(START, Drive(0)) == p
  {
    RunThree(START, CheckCancelled(0), DidCreateTask(0), UpdateStates(0));
  }

  lemma FinishedSuspended(p: Protocol, q: Protocol)
    requires p == START.(view := View(Initialized, [Paused]), attempts := [Settled(0)])
    requires q == p.(view := View(Finished, [Paused]), processed := true)
    ensures Run(p, [Suspend, SessionFinishes, Finish]) == q
  {
    RunThree(p, Suspend, SessionFinishes, Finish);
    hide Run, NextOf;
    var x := Next(p, Suspend);
    assert x == p.(view := View(State.Suspended, [Paused]));
    var y := Next(x, SessionFinishes);
    assert y == x.(decisions := 1);
  }

  lemma ClosedAndAppended(q: Protocol)
    requires q.view == View(Finished, [Paused]) && q.attempts == [Settled(0)]
    ensures var r := Run(q, [Invalidate, AppendSerializer]);
      r.view == View(Resumed, [Canceling]) && r.attempts == [Settled(0)] && !InLine(r)
  {
    RunTwo(q, Invalidate, AppendSerializer);
    hide Run;
    var r := Next(Next(q, Invalidate), AppendSerializer);
    assert HasSettled(r, 0) && SettledStatus(r, 0) == Canceling;
  }

  /** Two serializers are appended to a finished request and both lead to a retry: two tasks run, and cancellation
      reaches only the second. */
  lemma TwoRetriesRun()
    ensures var p := Run(START,
        Drive(0) + [Resume, TaskCompletes(0), DidComplete(0)] + [Finish, AppendSerializer, AppendSerializer]
        + [Retry, Retry] + Drive(1) + Drive(2) + [Cancel]);
      p.view == View(Cancelled, [Completed, Running, Canceling]) && p.attempts == [Ended, Settled(1), Settled(2)]
      && !Safe(p)
  {
    var p0 := START.(view := View(Initialized, [Paused]), attempts := [Settled(0)]);
    var p1 := START.(view := View(Resumed, [Completed]), attempts := [Ended], decisions := 1);
    var p2 := p1.(decisions := 2, processed := true);
    var p3 := p2.(decisions := 0, attempts := [Ended, Setup, Setup]);
    var p4 := p3.(view := View(Resumed, [Completed, Running]), attempts := [Ended, Settled(1), Setup]);
    var p5 := p4.(view := View(Resumed, [Completed, Running, Running]), attempts := [Ended, Settled(1), Settled(2)]);
    var p6 := p5.(view := View(Cancelled, [Completed, Running, Canceling]));
    FirstAttempt(p0, p1, p2, p3);
    SecondAttempts(p3, p4, p5, p6);
    var s := Drive(0) + [Resume, TaskCompletes(0), DidComplete(0)];
    RunAppend(START, Drive(0), [Resume, TaskCompletes(0), DidComplete(0)]);
    RunAppend(START, s, [Finish, AppendSerializer, AppendSerializer]);
    s := s + [Finish, AppendSerializer, AppendSerializer];
    RunAppend(START, s, [Retry, Retry]);
    s := s + [Retry, Retry];
    RunAppend(START, s, Drive(1));
    RunAppend(START, s + Drive(1), Drive(2));
    RunAppend(START, s + Drive(1) + Drive(2), [Cancel]);
    assert Live(p6.view.tasks[1]);
  }

  lemma FirstAttempt(p0: Protocol, p1: Protocol, p2: Protocol, p3: Protocol)
    requires p0 == START.(view := View(Initialized, [Paused]), attempts := [Settled(0)])
    requires p1 == START.(view := View(Resumed, [Completed]), attempts := [Ended], decisions := 1)
    requires p2 == p1.(decisions := 2, processed := true)
    requires p3 == p2.(decisions := 0, attempts := [Ended, Setup, Setup])
    ensures Run(START, Drive(0)) == p0
    ensures Run(p0, [Resume, TaskCompletes(0), DidComplete(0)]) == p1
    ensures Run(p1, [Finish, AppendSerializer, AppendSerializer]) == p2
    ensures Run(p2, [Retry, Retry]) == p3
  {
    FirstDrive(p0);
    RunThree(p0, Resume, TaskCompletes(0), DidComplete(0));
    RunThree(p1, Finish, AppendSerializer, AppendSerializer);
    RunTwo(p2, Retry, Retry);
  }

  lemma SecondAttempts(p3: Protocol, p4: Protocol, p5: Protocol, p6: Protocol)
    requires p3 == Protocol(View(Resumed, [Completed]), [Ended, Setup, Setup], 0, true, true)
    requires p4 == p3.(view := View(Resumed, [Completed, Running]), attempts := [Ended, Settled(1), Setup])
    requires p5 == p4.(view := View(Resumed, [Completed, Running, Running]),
                       attempts := [Ended, Settled(1), Settled(2)])
    requires p6 == p5.(view := View(Cancelled, [Completed, Running, Canceling]))
    ensures Run(p3, Drive(1)) == p4 && Run(p4, Drive(2)) == p5
    ensures Run(p5, [Cancel]) == p6
  {
    DriveResumed(p3, 1);
    DriveResumed(p4, 2);
    RunTwo(p5, Cancel, Cancel);
    hide Run;
    assert Next(p5, Cancel) == p6;
  }

  lemma DriveResumed(p: Protocol, a: nat)
    requires p.view.state.Resumed? && p.sessionOpen && a < |p.attempts| && p.attempts[a].Setup?
    ensures Run(p, Drive(a)) == p.(view := p.view.(tasks := p.view.tasks + [Running]),
                                   attempts := p.attempts[a := Settled(|p.view.tasks|)])
  {
    RunThree(p, CheckCancelled(a), DidCreateTask(a), UpdateStates(a));
    var x := p.(attempts := p.attempts[a := Guarded(Paused)]);
    assert Next(p, CheckCancelled(a)) == x;
    CreateAndUpdate(x, a);
    hide Run, Next;
    assert x.attempts[a := Settled(|p.view.tasks|)] == p.attempts[a := Settled(|p.view.tasks|)];
  }

  lemma CreateAndUpdate(x: Protocol, a: nat)
    requires x.view.state.Resumed? && a < |x.attempts| && x.attempts[a] == Guarded(Paused)
    ensures Next(Next(x, DidCreateTask(a)), UpdateStates(a))
         == x.(view := x.view.(tasks := x.view.tasks + [Running]), attempts := x.attempts[a := Settled(|x.view.tasks|)])
  {
    var v := x.view;
    var y := x.(view := v.(tasks := v.tasks + [Paused]), attempts := x.attempts[a := Appended(|v.tasks|)]);
    assert Next(x, DidCreateTask(a)) == y;
    assert y.view.tasks[|v.tasks| := Running] == v.tasks + [Running];
    assert y.attempts[a := Settled(|v.tasks|)] == x.attempts[a := Settled(|v.tasks|)];
  }

  /** Cancellation is final, and creates no further task beyond those whose isCancelled check came first. */
  lemma {:induction false} CancelIsFinal(p: Protocol, steps: seq<Step>)
    requires p.view.state.Cancelled?
    ensures var q := Run(p, steps);
      && q.view.state.Cancelled? && |p.view.tasks| <= |q.view.tasks|
      && |q.view.tasks| + Tally(q.attempts, GUARDED) <= |p.view.tasks| + Tally(p.attempts, GUARDED)
  {
    hide Next;
    if steps != [] {
      CancelIsFinal(p, steps[..|steps| - 1]);
      CancelledStep(Run(p, steps[..|steps| - 1]), steps[|steps| - 1]);
    }
  }

  lemma CancelledStep(p: Protocol, step: Step)
    requires p.view.state.Cancelled?
    ensures var q := Next(p, step);
      && q.view.state.Cancelled? && |p.view.tasks| <= |q.view.tasks|
      && |q.view.tasks| + Tally(q.attempts, GUARDED) <= |p.view.tasks| + Tally(p.attempts, GUARDED)
  {
    var q := Next(p, step);
    if step.CheckCancelled? || step.SetupFails? || step.DidCreateTask? || step.UpdateStates? || step.DidComplete? {
      if step.a < |p.attempts| {
        CancelledAttempt(p, step.a, step);
      }
    } else if step.Invalidate? {
      TallySame(p.attempts, q.attempts, GUARDED);
    } else if step.Retry? {
      assert q.attempts == p.attempts;
    }
  }

  lemma CancelledAttempt(p: Protocol, a: nat, step: Step)
    requires p.view.state.Cancelled? && a < |p.attempts|
    ensures var q := NextOf(p, a, step);
      && q.view.state.Cancelled? && |p.view.tasks| <= |q.view.tasks|
      && |q.view.tasks| + Tally(q.attempts, GUARDED) <= |p.view.tasks| + Tally(p.attempts, GUARDED)
  {
    var q := NextOf(p, a, step);
    if q != p {
      TallyUpdate(p.attempts, a, q.attempts[a], GUARDED);
    }
  }
}
