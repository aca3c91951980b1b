// Alamofire's two-way map between requests and tasks, dismantled by two events per task.
module RequestTaskMaps {
  import opened Varints

  /** Identities; only equality matters. */
  type Request = nat
  type Task = nat

  datatype Events = Events(completed: bool, metricsGathered: bool)

  datatype Maps = Maps(
    tasksToRequests: map<Task, Request>,
    requestsToTasks: map<Request, Task>,
    taskEvents: map<Task, Events>)

  /** A fatalError ends the process. */
  datatype Outcome = Ok(maps: Maps) | FatalError

  const EMPTY := Maps(map[], map[], map[])

  function Unpaired(m: Maps, request: Request, task: Task): Maps
  {
    Maps(m.tasksToRequests - {task}, m.requestsToTasks - {request}, m.taskEvents - {task})
  }

  function Paired(m: Maps, request: Request, task: Task): Maps
  {
    Maps(m.tasksToRequests[task := request], m.requestsToTasks[request := task],
         m.taskEvents[task := Events(false, false)])
  }

  function AfterMetrics(m: Maps, task: Task): Outcome
  {
    if task !in m.taskEvents || m.taskEvents[task].metricsGathered then FatalError
    else if !m.taskEvents[task].completed then Ok(m.(taskEvents := m.taskEvents[task := Events(false, true)]))
    else if task !in m.tasksToRequests then FatalError
    else Ok(Unpaired(m, m.tasksToRequests[task], task))
  }

  function AfterCompletion(m: Maps, task: Task): Outcome
  {
    if task !in m.taskEvents || m.taskEvents[task].completed then FatalError
    else if !m.taskEvents[task].metricsGathered then Ok(m.(taskEvents := m.taskEvents[task := Events(true, false)]))
    else if task !in m.tasksToRequests then FatalError
    else Ok(Unpaired(m, m.tasksToRequests[task], task))
  }

  /** The struct with its three dictionaries; fatal stands for a fatalError. */
  class RequestTaskMap {
    var tasksToRequests: map<Task, Request>
    var requestsToTasks: map<Request, Task>
    var taskEvents: map<Task, Events>

    function Value(): Maps
      reads this
    {
      Maps(tasksToRequests, requestsToTasks, taskEvents)
    }

    constructor ()
      ensures Value() == EMPTY
    {
      tasksToRequests, requestsToTasks, taskEvents := map[], map[], map[];
    }

    /** subscript(request) set */
    method SetTask(request: Request, newValue: Option<Task>) returns (fatal: bool)
      modifies this
      ensures fatal <==> newValue.None? && request !in old(requestsToTasks)
      ensures Value() ==
        if fatal then old(Value())
        else if newValue.Some? then Paired(old(Value()), request, newValue.value)
        else Unpaired(old(Value()), request, old(requestsToTasks)[request])
    {
      if newValue.None? {
        if request !in requestsToTasks {
          return true;
        }
        var task := requestsToTasks[request];
        requestsToTasks := requestsToTasks - {request};
        tasksToRequests := tasksToRequests - {task};
        taskEvents := taskEvents - {task};
        return false;
      }
      requestsToTasks := requestsToTasks[request := newValue.value];
      tasksToRequests := tasksToRequests[newValue.value := request];
      taskEvents := taskEvents[newValue.value := Events(false, false)];
      fatal := false;
    }

    /** subscript(task) set */
    method SetRequest(task: Task, newValue: Option<Request>) returns (fatal: bool)
      modifies this
      ensures fatal <==> newValue.None? && task !in old(tasksToRequests)
      ensures Value() ==
        if fatal then old(Value())
        else if newValue.Some? then Paired(old(Value()), newValue.value, task)
        else Unpaired(old(Value()), old(tasksToRequests)[task], task)
    {
      if newValue.None? {
        if task !in tasksToRequests {
          return true;
        }
        var request := tasksToRequests[task];
        tasksToRequests := tasksToRequests - {task};
        requestsToTasks := requestsToTasks - {request};
        taskEvents := taskEvents - {task};
        return false;
      }
      tasksToRequests := tasksToRequests[task := newValue.value];
      requestsToTasks := requestsToTasks[newValue.value := task];
      taskEvents := taskEvents[task := Events(false, false)];
      fatal := false;
    }

    method DisassociateIfNecessaryAfterGatheringMetrics(task: Task) returns (fatal: bool)
      modifies this
      ensures fatal <==> AfterMetrics(old(Value()), task).FatalError?
      ensures Value() == if fatal then old(Value()) else AfterMetrics(old(Value()), task).maps
    {
      if task !in taskEvents {
        return true;
      }
      var events := taskEvents[task];
      if events.metricsGathered {
        return true;
      } else if !events.completed {
        taskEvents := taskEvents[task := Events(false, true)];
        return false;
      } else {
        fatal := SetRequest(task, None);
      }
    }

    method DisassociateIfNecessaryAfterCompleting(task: Task) returns (fatal: bool)
      modifies this
      ensures fatal <==> AfterCompletion(old(Value()), task).FatalError?
      ensures Value() == if fatal then old(Value()) else AfterCompletion(old(Value()), task).maps
    {
      if task !in taskEvents {
        return true;
      }
      var events := taskEvents[task];
      if events.completed {
        return true;
      } else if !events.metricsGathered {
        taskEvents := taskEvents[task := Events(true, false)];
        return false;
      } else {
        fatal := SetRequest(task, None);
      }
    }

    /** count and isEmpty: their preconditions hold and the two maps agree while the maps are consistent. */
    method Count() returns (count: nat)
      requires Consistent(Value())
      ensures count == |tasksToRequests| == |requestsToTasks| == |taskEvents|
    {
      ConsistentSizes(Value());
      count := |tasksToRequests|;
    }
  }

  // ---- consistency ----

  /** The two maps are mutual inverses, the events have the same domain, and no task has had both events. */
  ghost predicate Consistent(m: Maps)
  {
    && (forall t | t in m.tasksToRequests ::
          m.tasksToRequests[t] in m.requestsToTasks && m.requestsToTasks[m.tasksToRequests[t]] == t)
    && (forall r | r in m.requestsToTasks ::
          m.requestsToTasks[r] in m.tasksToRequests && m.tasksToRequests[m.requestsToTasks[r]] == r)
    && m.taskEvents.Keys == m.tasksToRequests.Keys
    && (forall t | t in m.taskEvents :: !(m.taskEvents[t].completed && m.taskEvents[t].metricsGathered))
  }

  lemma {:induction false} InverseSizes(a: map<nat, nat>, b: map<nat, nat>)
    requires forall t | t in a :: a[t] in b && b[a[t]] == t
    requires forall r | r in b :: b[r] in a && a[b[r]] == r
    ensures |a| == |b|
    decreases |a|
  {
    if |a| == 0 {
      assert a == map[];
      assert b.Keys == {};
    } else {
      var t :| t in a;
      var a', b' := a - {t}, b - {a[t]};
      assert |a'.Keys| == |a.Keys| - 1 by { assert a.Keys == a'.Keys + {t}; }
      assert |b'.Keys| == |b.Keys| - 1 by { assert b.Keys == b'.Keys + {a[t]}; }
      InverseSizes(a', b');
    }
  }

  lemma ConsistentSizes(m: Maps)
    requires Consistent(m)
    ensures |m.tasksToRequests| == |m.requestsToTasks| == |m.taskEvents|
  {
    InverseSizes(m.tasksToRequests, m.requestsToTasks);
    assert |m.taskEvents.Keys| == |m.tasksToRequests.Keys|;
  }

  // ---- whole runs ----

  datatype Action = Associate(request: Request, task: Task) | Metrics(task: Task) | Completed(task: Task)

  function Step(m: Maps, a: Action): Outcome
  {
    match a
    case Associate(request, task) => Ok(Paired(m, request, task))
    case Metrics(task) => AfterMetrics(m, task)
    case Completed(task) => AfterCompletion(m, task)
  }

  function Run(history: seq<Action>): Outcome
  {
    if history == [] then Ok(EMPTY)
    else
      match Run(history[..|history| - 1])
      case Ok(m) => Step(m, history[|history| - 1])
      case FatalError => FatalError
  }

  /** What the history of one task alone says: its request and the event it has had, until the second one. */
  datatype Entry = Entry(request: Request, events: Events)

  function Pending(history: seq<Action>, task: Task): Option<Entry>
  {
    if history == [] then None
    else
      var before := Pending(history[..|history| - 1], task);
      var a := history[|history| - 1];
      if a.task != task then before
      else
        match a
        case Associate(request, _) => Some(Entry(request, Events(false, false)))
        case Metrics(_) =>
          if before.None? || before.value.events.completed then None
          else Some(Entry(before.value.request, Events(false, true)))
        case Completed(_) =>
          if before.None? || before.value.events.metricsGathered then None
          else Some(Entry(before.value.request, Events(true, false)))
  }

  /** An association needs a task and a request that are not in use with another partner; an event needs a pending
      task that has not had it. */
  ghost predicate Allowed(history: seq<Action>, a: Action)
  {
    var before := Pending(history, a.task);
    match a
    case Associate(request, task) =>
      && (before.Some? ==> before.value.request == request)
      && (forall t | Pending(history, t).Some? && Pending(history, t).value.request == request :: t == task)
    case Metrics(_) => before.Some? && !before.value.events.metricsGathered
    case Completed(_) => before.Some? && !before.value.events.completed
  }

  ghost predicate Disciplined(history: seq<Action>)
  {
    history == []
    || (Disciplined(history[..|history| - 1]) && Allowed(history[..|history| - 1], history[|history| - 1]))
  }

  /** The maps hold exactly the pending pairs. */
  ghost predicate Mirrors(m: Maps, history: seq<Action>)
  {
    && (forall t :: t in m.tasksToRequests <==> Pending(history, t).Some?)
    && (forall t | t in m.tasksToRequests :: m.tasksToRequests[t] == Pending(history, t).value.request)
    && (forall t | t in m.taskEvents && t in m.tasksToRequests :: m.taskEvents[t] == Pending(history, t).value.events)
  }

  /** No prefix of the run hits a fatalError or leaves inconsistent maps. */
  ghost predicate Sound(history: seq<Action>)
  {
    && (history == [] || Sound(history[..|history| - 1]))
    && Run(history).Ok? && Consistent(Run(history).maps)
  }

  lemma StepMirrors(m: Maps, history: seq<Action>, a: Action)
    requires Consistent(m) && Mirrors(m, history)
    ensures Step(m, a).Ok? && Consistent(Step(m, a).maps) <==> Allowed(history, a)
    ensures Allowed(history, a) ==> Mirrors(Step(m, a).maps, history + [a])
  {
    StepAllowed(m, history, a);
    if Allowed(history, a) {
      StepPending(m, history, a);
    }
  }

  lemma StepAllowed(m: Maps, history: seq<Action>, a: Action)
    requires Consistent(m) && Mirrors(m, history)
    ensures Step(m, a).Ok? && Consistent(Step(m, a).maps) <==> Allowed(history, a)
  {
    hide Pending;
    if a.Associate? {
      AssociateConsistent(m, a.request, a.task);
      if a.request in m.requestsToTasks {
        assert Pending(history, m.requestsToTasks[a.request]).Some?;
      }
    } else if a.task in m.tasksToRequests {
      UnpairedConsistent(m, a.task);
    }
  }

  lemma UnpairedConsistent(m: Maps, task: Task)
    requires Consistent(m) && task in m.tasksToRequests
    ensures Consistent(Unpaired(m, m.tasksToRequests[task], task))
  {
  }

  lemma StepPending(m: Maps, history: seq<Action>, a: Action)
    requires Consistent(m) && Mirrors(m, history) && Allowed(history, a) && Step(m, a).Ok?
    ensures Mirrors(Step(m, a).maps, history + [a])
  {
    var h := history + [a];
    assert h[..|h| - 1] == history;
    assert forall t | t != a.task :: Pending(h, t) == Pending(history, t);
    var before := Pending(history, a.task);
    assert Pending(h, a.task) ==
      match a
      case Associate(request, _) => Some(Entry(request, Events(false, false)))
      case Metrics(_) =>
        if before.value.events.completed then None else Some(Entry(before.value.request, Events(false, true)))
      case Completed(_) =>
        if before.value.events.metricsGathered then None else Some(Entry(before.value.request, Events(true, false)));
    hide Pending;
    assert a.task in m.tasksToRequests ==> a.task in m.taskEvents;
  }

  /** A new pair keeps the maps consistent exactly when neither side is in use with another partner. */
  lemma AssociateConsistent(m: Maps, request: Request, task: Task)
    requires Consistent(m)
    ensures Consistent(Paired(m, request, task)) <==>
      && (request in m.requestsToTasks ==> m.requestsToTasks[request] == task)
      && (task in m.tasksToRequests ==> m.tasksToRequests[task] == request)
  {
    var p := Paired(m, request, task);
    if request in m.requestsToTasks && m.requestsToTasks[request] != task {
      assert m.requestsToTasks[request] in p.tasksToRequests;
    }
    if task in m.tasksToRequests && m.tasksToRequests[task] != request {
      assert m.tasksToRequests[task] in p.requestsToTasks;
    }
  }

  /** A run stays consistent and free of fatalErrors exactly when its history is disciplined; then the maps hold
      exactly the pairs whose task has had fewer than two events. */
  lemma {:induction false} RunIsSound(history: seq<Action>)
    ensures Sound(history) <==> Disciplined(history)
    ensures Disciplined(history) ==> Mirrors(Run(history).maps, history)
  {
    if history != [] {
      var before := history[..|history| - 1];
      var a := history[|history| - 1];
      RunIsSound(before);
      assert history == before + [a];
      if Disciplined(before) {
        StepMirrors(Run(before).maps, before, a);
      }
    }
  }

  /** The two events may come in either order: the pair goes at the second one, and nothing else changes. */
  lemma EitherOrder(history: seq<Action>, task: Task)
    requires Disciplined(history) && Pending(history, task).Some?
    requires Pending(history, task).value.events == Events(false, false)
    ensures Run(history).Ok?
    ensures Run(history + [Metrics(task)] + [Completed(task)]) == Run(history + [Completed(task)] + [Metrics(task)])
    ensures Run(history + [Metrics(task)] + [Completed(task)])
         == Ok(Unpaired(Run(history).maps, Pending(history, task).value.request, task))
  {
    RunIsSound(history);
    var m := Run(history).maps;
    RunStep(history, Metrics(task));
    RunStep(history, Completed(task));
    RunStep(history + [Metrics(task)], Completed(task));
    RunStep(history + [Completed(task)], Metrics(task));
    assert task in m.taskEvents;
    var gone := Unpaired(m, m.tasksToRequests[task], task);
    assert m.taskEvents[task := Events(false, true)] - {task} == gone.taskEvents;
    assert m.taskEvents[task := Events(true, false)] - {task} == gone.taskEvents;
  }

  lemma RunStep(history: seq<Action>, a: Action)
    ensures Run(history + [a]) == match Run(history) case Ok(m) => Step(m, a) case FatalError => FatalError
  {
    assert (history + [a])[..|history|] == history;
  }

  /** A retry that gets its task before the metrics of the first one arrive: the late event then takes away the
      request's entry, while its second task stays mapped. */
  lemma LateMetricsRun()
    ensures var retried := [Associate(0, 1), Completed(1), Associate(0, 2)];
      && !Sound(retried) && Run(retried + [Metrics(1)]).Ok?
      && var m := Run(retried + [Metrics(1)]).maps;
        0 !in m.requestsToTasks && 2 in m.tasksToRequests && m.tasksToRequests[2] == 0
  {
    var retried := [Associate(0, 1), Completed(1), Associate(0, 2)];
    RunStep([], Associate(0, 1));
    RunStep([Associate(0, 1)], Completed(1));
    RunStep([Associate(0, 1), Completed(1)], Associate(0, 2));
    RunStep(retried, Metrics(1));
    assert [] + [Associate(0, 1)] == [Associate(0, 1)];
    assert [Associate(0, 1)] + [Completed(1)] == [Associate(0, 1), Completed(1)];
    assert [Associate(0, 1), Completed(1)] + [Associate(0, 2)] == retried;
    var m := Run(retried).maps;
    assert 1 in m.tasksToRequests && m.requestsToTasks[m.tasksToRequests[1]] == 2;
  }
}
