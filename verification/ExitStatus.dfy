/** What `Run` returns, over every schedule of the lifecycle in internal/server/server.go. */
module ExitStatus {
  import opened Lifecycle

  /** The process has nothing more to do for `Run`. */
  predicate Over(s: State) {
    s.main.Returned? || s.phase.Dead?
  }

  /**
   Over every schedule: `Run` returns, unless the process dies before because a reply failed and the read
   loop then ended on an error of another type.  If it returns, it reports the context only if the outer
   context was cancelled.  Otherwise, if an exit was received, it returns `ErrExitWithoutShutdown` exactly
   when no shutdown reply was sent before, and success when one was; and it returns a connection error
   exactly when no exit was received.
   */
  lemma ExitStatusExact(trace: seq<State>, i: nat)
    requires IsRun(trace) && i < |trace| && Over(trace[i])
    ensures !trace[i].main.Returned? ==> ErrorsClash(trace[i])
    ensures trace[i].main.Returned? ==> ResultFits(trace[i])
  {
    RunInv(trace, i);
  }

  /** The result, by what was received and answered. */
  predicate ResultFits(s: State) {
    && (s.result.ContextError? ==> s.outerCancelled)
    && (s.exits && !s.result.ContextError? ==> (s.result.Success? <==> s.answered))
    && (s.exits && !s.result.ContextError? ==> (s.result.ExitWithoutShutdown? <==> !s.answered))
    && (!s.exits && !s.result.ContextError? ==> s.result.ConnectionError?)
  }

  // ----- the process dies

  /**
   The exact condition under which the read loop panics: a reply failed, and then the loop ended on a
   cancelled context, a line that is no header, or a message without method and id.
   */
  lemma CrashIff(trace: seq<State>, i: nat)
    requires IsRun(trace) && i < |trace|
    ensures Crashed(trace[i]) <==> ErrorsClash(trace[i])
  {
    RunInv(trace, i);
  }

  /** A run that ends in `s`. */
  ghost predicate Reachable(s: State) {
    exists trace :: IsRun(trace) && trace[|trace| - 1] == s
  }

  lemma Taken(s: State, step: Step) returns (t: State)
    requires Reachable(s) && Enabled(s, step)
    ensures t == Next(s, step) && Reachable(t)
  {
    t := Next(s, step);
    var trace :| IsRun(trace) && trace[|trace| - 1] == s;
    var longer := trace + [t];
    forall i | 0 <= i < |longer| - 1 ensures Moves(longer[i], longer[i + 1]) {
      if i < |trace| - 1 {
        assert Moves(trace[i], trace[i + 1]);
      } else {
        assert longer[i] == s && longer[i + 1] == t;
      }
    }
    assert IsRun(longer) && longer[|longer| - 1] == t;
  }

  /** Nothing has happened but messages and their replies. */
  predicate Undisturbed(s: State) {
    s.main.Waiting? && !s.outerCancelled && !s.hungUp && !s.garbled
  }

  lemma Started() returns (s: State)
    ensures Reachable(s) && Init(s)
  {
    s := State(Looking, Other, true, Waiting, Success, false, false, false, 0, false, false, false, false, false,
               NoError, false, false, false, NoError);
    assert IsRun([s]) && [s][|[s]| - 1] == s;
  }

  /** A message is received. */
  lemma Received(s: State, m: Message) returns (t: State)
    requires Reachable(s) && Undisturbed(s) && s.phase.Looking? && !s.runCancelled
    ensures Reachable(t) && Undisturbed(t) && t.phase.Handling? && t.msg == m && !t.runCancelled
    ensures t.err == s.err && t.shutdown == s.shutdown && t.once == s.once && t.answered == s.answered
    ensures t.exits == (s.exits || m.Exit?)
  {
    t := Taken(s, Look);
    t := Taken(t, Deliver(m));
  }

  /** The handler makes a step, and its reply, if it makes one, is sent or not. */
  lemma Handled(s: State, sent: bool) returns (t: State)
    requires Reachable(s) && Undisturbed(s) && InHandler(s)
    ensures Reachable(t) && Undisturbed(t) && t.phase == NextPhase(s) && t.msg == s.msg && t.exits == s.exits
    ensures t.ok == (if s.phase.Handling? then sent else s.ok)
    ensures t.err == (if s.phase.Returning? && !s.ok && s.err.NoError? then Wrapped else s.err)
    ensures t.answered == (s.answered || (s.phase.Handling? && Accepts(s) && sent))
    ensures t.shutdown == (s.shutdown || (s.phase.ShutdownAnswered? && s.ok))
    ensures t.once == (s.once || s.phase.FlagStored?)
    ensures t.runCancelled == (s.runCancelled || s.phase.ChannelClosed?)
  {
    t := Taken(s, HandlerStep(sent));
  }

  /** The reply to a shutdown request fails. */
  lemma ShutdownUnanswered() returns (s: State)
    ensures Reachable(s) && Undisturbed(s) && s.phase.Looking? && s.err.Wrapped? && !s.exits && !s.answered
    ensures !s.once && !s.runCancelled
  {
    s := Started();
    s := Received(s, Shutdown);
    s := Handled(s, false);
    s := Handled(s, true);
    s := Handled(s, true);
  }

  /** An exit is handled, and cancels the run context. */
  lemma ExitHandled(s: State) returns (t: State)
    requires Reachable(s) && Undisturbed(s) && s.phase.Looking? && s.err.Wrapped? && !s.answered
    requires !s.once && !s.runCancelled
    ensures Reachable(t) && Undisturbed(t) && t.phase.Looking? && t.err.Wrapped? && t.exits && !t.answered
    ensures t.runCancelled
  {
    t := Received(s, Exit);
    t := Handled(t, true);
    t := Handled(t, true);
    t := Handled(t, true);
    t := Handled(t, true);
    t := Handled(t, true);
    t := Handled(t, true);
  }

  /**
   The reply to a shutdown request fails; an exit that is already buffered is still delivered and cancels
   the run context.  The process dies before `Run` has returned.
   */
  lemma ExitAfterFailedReply() returns (s: State)
    ensures Reachable(s) && Undisturbed(s) && s.phase.Dead? && s.exits && !s.answered
  {
    s := ShutdownUnanswered();
    s := ExitHandled(s);
    s := Taken(s, Look);
    s := Taken(s, Die);
  }

  /** The outer context is cancelled while a request is handled, so its reply fails. */
  lemma CancelledRequest() returns (s: State)
    ensures Reachable(s) && s.phase.Dead? && s.main.Waiting?
    ensures s.outerCancelled && !s.exits && !s.hungUp && !s.garbled
  {
    s := Started();
    s := Received(s, Other);
    s := Taken(s, CancelOuter);
    s := Taken(s, HandlerStep(false));
    s := FailedReplyRecorded(s);
    s := Taken(s, Look);
    s := Taken(s, Die);
  }

  lemma FailedReplyRecorded(s: State) returns (t: State)
    requires Reachable(s) && s.phase.Returning? && !s.ok && s.err.NoError?
    ensures Reachable(t) && t.phase.Looking? && t.err.Wrapped? && t.runCancelled == s.runCancelled
    ensures t.main == s.main && t.outerCancelled == s.outerCancelled
    ensures t.exits == s.exits && t.hungUp == s.hungUp && t.garbled == s.garbled
  {
    t := Taken(s, HandlerStep(true));
  }

  /** The exit channel is closed at most once, and only after the flag that `Run` then reads is right. */
  lemma ExitClosedOnce(trace: seq<State>, i: nat)
    requires IsRun(trace) && i < |trace|
    ensures trace[i].closes <= 1
    ensures trace[i].closes == 1 ==> trace[i].exits && trace[i].abnormal == !trace[i].answered
  {
    RunInv(trace, i);
  }

  // ----- the cleanup

  /** How many steps the handler and the loop can make once the run context is cancelled. */
  function Left(p: Phase): nat {
    match p
    case Reading => 9
    case Handling => 8
    case ShutdownAnswered => 7
    case ExitAnswered => 7
    case FlagStored => 6
    case ChannelClosed => 5
    case ContextCancelled => 4
    case Returning => 3
    case Looking => 2
    case Ended => 1
    case Panicking => 1
    case Dead => 0
  }

  function Remaining(s: State): nat {
    Left(s.phase) + if s.main.Closing? then 1 else 0
  }

  /** The step is the environment's. */
  predicate External(step: Step) {
    step.CancelOuter? || step.HangUp? || step.Garble?
  }

  lemma StageEnds(s: State, sent: bool)
    requires InHandler(s)
    ensures Left(Handle(s, sent).phase) < Left(s.phase)
  {
  }

  lemma StepEnds(s: State, step: Step)
    requires s.main.Closing? && s.runCancelled && Enabled(s, step) && !External(step)
    ensures Remaining(Next(s, step)) < Remaining(s)
  {
    if step.HandlerStep? { StageEnds(s, step.sent); }
  }

  /**
   If closing the stream ends a read, `Run` does not hang in its cleanup: until it has returned some step
   is possible, unless the process is dead, and every step but those of the environment brings it nearer
   to returning, even when a buffered message is still delivered.  The process dies only if a reply failed
   and the loop then ended on an error of another type.
   */
  lemma CleanupEnds(trace: seq<State>, i: nat)
    requires IsRun(trace) && i < |trace| && trace[i].main.Closing?
    ensures (exists step :: !External(step) && Enabled(trace[i], step)) <==> !trace[i].phase.Dead?
    ensures forall step :: Enabled(trace[i], step) && !External(step) ==>
      Remaining(Next(trace[i], step)) < Remaining(trace[i])
    ensures trace[i].phase.Dead? ==> ErrorsClash(trace[i])
  {
    RunInv(trace, i);
    var s := trace[i];
    if s.phase.Reading? {
      assert Enabled(s, ReadFails(Wrapped)) && !External(ReadFails(Wrapped));
    } else if s.phase.Looking? {
      assert Enabled(s, Look) && !External(Look);
    } else if Done(s) {
      assert Enabled(s, Finish) && !External(Finish);
    } else if !s.phase.Dead? {
      assert Enabled(s, HandlerStep(true)) && !External(HandlerStep(true));
    }
    forall step | Enabled(s, step) && !External(step) ensures Remaining(Next(s, step)) < Remaining(s) {
      StepEnds(s, step);
    }
  }
}
