// Whether a request's processing is bound to finish: every attempt and every decision hands on to the next one.
module RequestOutcomes {
  import opened RequestProtocol

  /** The attempt will end in a decision; one that has yet to read isCancelled gives up when the request is. */
  predicate Carries(p: Protocol, a: nat)
    requires a < |p.attempts|
  {
    match p.attempts[a]
    case Setup => !p.view.state.Cancelled?
    case Ended => false
    case _ => true
  }

  /** The processing has finished, or a decision is open, or an attempt will end in one. */
  predicate Pending(p: Protocol)
  {
    p.processed || p.decisions > 0 || exists a :: 0 <= a < |p.attempts| && Carries(p, a)
  }

  /** The last open decision is to retry a request that is cancelled: nothing is done about it then. */
  predicate Loses(p: Protocol, step: Step)
  {
    && step.Retry? && p.view.state.Cancelled? && p.decisions == 1 && !p.processed
    && forall a | 0 <= a < |p.attempts| :: !Carries(p, a)
  }

  predicate NeverLoses(p: Protocol, steps: seq<Step>)
  {
    steps == []
    || (NeverLoses(p, steps[..|steps| - 1]) && !Loses(Run(p, steps[..|steps| - 1]), steps[|steps| - 1]))
  }

  predicate AlwaysPending(p: Protocol, steps: seq<Step>)
  {
    Pending(Run(p, steps)) && (steps == [] || AlwaysPending(p, steps[..|steps| - 1]))
  }

  lemma StepKeepsPending(p: Protocol, step: Step)
    requires Inv(p) && Pending(p)
    ensures Pending(Next(p, step)) <==> !Loses(p, step)
  {
    var q := Next(p, step);
    match step
    case Cancel => CancelKeepsPending(p);
    case Retry => RetryPending(p);
    case Invalidate =>
      if a :| 0 <= a < |p.attempts| && Carries(p, a) {
        assert Carries(q, a);
      }
    case Resume => SameAttempts(p, q);
    case Suspend => SameAttempts(p, q);
    case AppendSerializer => SameAttempts(p, q);
    case Finish => SameAttempts(p, q);
    case TaskCompletes(_) => SameAttempts(p, q);
    case SessionFinishes => SameAttempts(p, q);
    case _ =>
      if step.a < |p.attempts| {
        AttemptKeepsPending(p, step.a, step);
      }
  }

  lemma SameAttempts(p: Protocol, q: Protocol)
    requires Pending(p) && q.attempts == p.attempts
    requires q.view.state.Cancelled? ==> p.view.state.Cancelled?
    requires q.processed || (!p.processed && q.decisions >= p.decisions)
    ensures Pending(q)
  {
    if a :| 0 <= a < |p.attempts| && Carries(p, a) {
      assert Carries(q, a);
    }
  }

  lemma CancelKeepsPending(p: Protocol)
    requires Inv(p) && Pending(p)
    ensures Pending(Next(p, Cancel))
  {
    var q := Next(p, Cancel);
    if CurrentUncompleted(p.view.tasks) {
      var t := |p.view.tasks| - 1;
      assert Appended(t) in p.attempts || Settled(t) in p.attempts;
      var a :| 0 <= a < |p.attempts| && (p.attempts[a] == Appended(t) || p.attempts[a] == Settled(t));
      assert Carries(q, a);
    } else if !CanTransitionTo(p.view.state, Cancelled) {
      SameAttempts(p, q);
    }
  }

  lemma RetryPending(p: Protocol)
    requires Pending(p)
    ensures Pending(Next(p, Retry)) <==> !Loses(p, Retry)
  {
    var q := Next(p, Retry);
    if p.decisions > 0 && !p.view.state.Cancelled? {
      assert Carries(q, |p.attempts|);
    } else if a :| 0 <= a < |p.attempts| && Carries(p, a) {
      assert Carries(q, a);
    } else {
      assert forall a | 0 <= a < |q.attempts| :: Carries(q, a) == Carries(p, a);
    }
  }

  lemma AttemptKeepsPending(p: Protocol, a: nat, step: Step)
    requires Pending(p) && a < |p.attempts|
    ensures Pending(NextOf(p, a, step))
  {
    var q := NextOf(p, a, step);
    if b :| 0 <= b < |p.attempts| && Carries(p, b) {
      if b != a {
        assert Carries(q, b);
      } else if q.attempts[a].Ended? {
        assert q.decisions > 0;
      } else {
        assert Carries(q, a);
      }
    }
  }

  /** Throughout a run the processing is finished or bound to be decided about, exactly when no last decision is to
      retry a cancelled request. */
  lemma {:induction false} NothingIsLost(steps: seq<Step>)
    ensures AlwaysPending(START, steps) <==> NeverLoses(START, steps)
  {
    hide Next, Pending, Loses, Inv;
    assert Pending(START) by { StartPending(); }
    if steps != [] {
      var before := steps[..|steps| - 1];
      NothingIsLost(before);
      StartIsSafe();
      RunKeepsInv(START, before);
      if AlwaysPending(START, before) {
        StepKeepsPending(Run(START, before), steps[|steps| - 1]);
      }
    }
  }

  lemma StartPending()
    ensures Pending(START)
  {
    assert Carries(START, 0);
  }

  /** A running request is cancelled, and the retrier asks to retry when its task has completed: the processing is not
      finished, and nothing is left that could finish it. */
  lemma LostRun()
    ensures var p := Run(START, Drive(0) + [Resume, Cancel, TaskCompletes(0)] + [DidComplete(0), Retry]);
      p == Protocol(View(Cancelled, [Completed]), [Ended], 0, false, true) && !Pending(p)
  {
    var p := START.(view := View(Initialized, [Paused]), attempts := [Settled(0)]);
    var q := p.(view := View(Cancelled, [Completed]));
    FirstDrive(p);
    CancelledAndCompleted(p, q);
    DecidedToRetry(q);
    RunAppend(START, Drive(0), [Resume, Cancel, TaskCompletes(0)]);
    RunAppend(START, Drive(0) + [Resume, Cancel, TaskCompletes(0)], [DidComplete(0), Retry]);
  }

  lemma CancelledAndCompleted(p: Protocol, q: Protocol)
    requires p == START.(view := View(Initialized, [Paused]), attempts := [Settled(0)])
    requires q == p.(view := View(Cancelled, [Completed]))
    ensures Run(p, [Resume, Cancel, TaskCompletes(0)]) == q
  {
    RunThree(p, Resume, Cancel, TaskCompletes(0));
    hide Run, NextOf;
    var x := Next(p, Resume);
    assert x == p.(view := View(Resumed, [Running]));
    var y := Next(x, Cancel);
    assert y == p.(view := View(Cancelled, [Canceling]));
  }

  lemma DecidedToRetry(q: Protocol)
    requires q == START.(view := View(Cancelled, [Completed]), attempts := [Settled(0)])
    ensures Run(q, [DidComplete(0), Retry]) == Protocol(View(Cancelled, [Completed]), [Ended], 0, false, true)
  {
    RunTwo(q, DidComplete(0), Retry);
    hide Run;
    assert Next(q, DidComplete(0)) == q.(attempts := [Ended], decisions := 1);
  }
}
