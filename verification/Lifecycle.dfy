/**
 Shutdown, exit and the result of `Run`: internal/server/server.go, step by step over every schedule.

 The connection's read loop calls the handler for one message at a time.  Before each read it looks at
 the run context; a read that has begun may deliver a message whatever happens meanwhile, for one may
 already be buffered.  It fails if the client hangs up or sends what is no message, and, this is assumed
 of the connection, once the stream is closed.  An error of the handler closes the stream as well.  The
 connection keeps the last error in a cell that only takes values of one type: recording an error of
 another type panics, and then the process dies, although `Run` may still return before it does.

 `Run` waits for three events and may take any that has happened.  Replies may fail, the client may hang
 up and the outer context may be cancelled at any time.
 */
module Lifecycle {

  datatype Message = Shutdown | Exit | Other

  /** What `Run` returns. */
  datatype Outcome = Success | ExitWithoutShutdown | ConnectionError | ContextError

  /**
   The type of an error.  `Wrapped`: of every failed reply, and of most failed reads.  `Plain`: of a
   cancelled context, and of a line that is no header.  `Coded`: of a message with neither method nor id.
   */
  datatype ErrorType = NoError | Wrapped | Plain | Coded

  /**
   Where the read loop is.  `Looking`: at the run context, before a read.  `FlagStored` to
   `ContextCancelled`: the stages of the exit case after its reply.  `Panicking`: it has closed `Done` on
   its way out of a panic.  `Dead`: the whole process is.
   */
  datatype Phase =
    Looking | Reading | Handling | ShutdownAnswered | ExitAnswered | FlagStored | ChannelClosed | ContextCancelled
    | Returning | Ended | Panicking | Dead

  /** Where `Run` is. `Deciding`: it saw the connection end and looks at the exit channel once more. */
  datatype Main = Waiting | Deciding | Cleaning | Cancelled | Closing | Returned

  /**
   `msg` and `ok`: the message in the handler and whether its reply was sent.  `closes`: how often the
   exit channel was closed.  `hungUp`, `garbled`: the client has hung up, has sent what is no message.
   `err`: the error the connection has recorded.  `exits`, `answered`: whether an exit was received, and
   whether a shutdown reply was sent before it.  `replyFailed`, `last`: whether the handler has returned
   an error, and the type of the error on which the loop ended.
   */
  datatype State = State(phase: Phase, msg: Message, ok: bool, main: Main, result: Outcome,
                         shutdown: bool, abnormal: bool, once: bool, closes: nat,
                         outerCancelled: bool, runCancelled: bool, streamClosed: bool, hungUp: bool, garbled: bool,
                         err: ErrorType, exits: bool, answered: bool, replyFailed: bool, last: ErrorType)

  datatype Step =
    | CancelOuter
    | HangUp
    | Garble
    | Look
    | Deliver(m: Message)
    | HandlerStep(sent: bool)       // `sent`: whether a reply made in this step succeeds
    | ReadFails(error: ErrorType)
    | Die
    | TakeContext
    | TakeExit
    | TakeDone
    | Decide
    | CancelRun
    | CloseStream
    | Finish

  predicate Init(s: State) {
    && s.phase.Looking? && s.main.Waiting?
    && !s.shutdown && !s.abnormal && !s.once && s.closes == 0
    && !s.outerCancelled && !s.runCancelled && !s.streamClosed && !s.hungUp && !s.garbled
    && s.err.NoError? && !s.exits && !s.answered && !s.replyFailed && s.last.NoError?
  }

  /** `conn.Done()`, which is closed on every way out of the loop. */
  predicate Done(s: State) {
    s.phase.Ended? || s.phase.Panicking?
  }

  predicate InHandler(s: State) {
    !s.phase.Looking? && !s.phase.Reading? && !s.phase.Ended? && !s.phase.Panicking? && !s.phase.Dead?
  }

  /** The errors with which a read can fail. */
  predicate CanFail(s: State, error: ErrorType) {
    match error
    case NoError => false
    case Wrapped => s.hungUp || s.garbled || s.streamClosed
    case _ => s.garbled
  }

  predicate Enabled(s: State, step: Step) {
    !s.phase.Dead? &&
    match step
    case CancelOuter => true
    case HangUp => true
    case Garble => true
    case Look => s.phase.Looking?
    case Deliver(_) => s.phase.Reading?
    case HandlerStep(_) => InHandler(s)
    case ReadFails(error) => s.phase.Reading? && CanFail(s, error)
    case Die => s.phase.Panicking?
    case TakeContext => s.main.Waiting? && s.outerCancelled
    case TakeExit => s.main.Waiting? && s.closes > 0
    case TakeDone => s.main.Waiting? && Done(s)
    case Decide => s.main.Deciding?
    case CancelRun => s.main.Cleaning?
    case CloseStream => s.main.Cancelled?
    case Finish => s.main.Closing? && Done(s)
  }

  /** The request is the one shutdown request that passes the gate. */
  predicate Accepts(s: State) {
    s.msg.Shutdown? && !s.shutdown
  }

  /** Recording the error panics: one of another type is recorded. */
  predicate Clashes(s: State, error: ErrorType) {
    !s.err.NoError? && s.err != error
  }

  /** `conn.fail` on the error that ends the loop. */
  function EndLoop(s: State, error: ErrorType): State {
    s.(phase := if Clashes(s, error) then Panicking else Ended,
       err := if Clashes(s, error) then s.err else error,
       streamClosed := s.streamClosed || !Clashes(s, error),
       last := error)
  }

  /**
   The order of the stages.  After its reply a shutdown sets the flag; after its reply an exit sets
   abnormalExit, and the first exit then closes the channel, cancels the run context and closes the
   connection.  Any other message, and any message but exit behind the gate, only gets its reply.
   */
  function NextPhase(s: State): Phase {
    match s.phase
    case Handling => if Accepts(s) then ShutdownAnswered else if s.msg.Exit? then ExitAnswered else Returning
    case ShutdownAnswered => Returning
    case ExitAnswered => FlagStored
    case FlagStored => if s.once then Returning else ChannelClosed
    case ChannelClosed => ContextCancelled
    case ContextCancelled => Returning
    case Returning => if !s.ok && Clashes(s, Wrapped) then Panicking else Looking
    case _ => s.phase
  }

  /** One step of the handler, variable by variable; a handler whose reply failed fails the connection. */
  function Handle(s: State, sent: bool): State {
    s.(phase := NextPhase(s),
       ok := if s.phase.Handling? then sent else s.ok,
       answered := s.answered || (s.phase.Handling? && Accepts(s) && sent),
       shutdown := s.shutdown || (s.phase.ShutdownAnswered? && s.ok),
       abnormal := if s.phase.ExitAnswered? then !s.shutdown else s.abnormal,
       once := s.once || s.phase.FlagStored?,
       closes := if s.phase.FlagStored? && !s.once then s.closes + 1 else s.closes,
       runCancelled := s.runCancelled || s.phase.ChannelClosed?,
       streamClosed :=
         s.streamClosed || s.phase.ContextCancelled? || (s.phase.Returning? && !s.ok && !Clashes(s, Wrapped)),
       err := if s.phase.Returning? && !s.ok && s.err.NoError? then Wrapped else s.err,
       replyFailed := s.replyFailed || (s.phase.Returning? && !s.ok))
  }

  /** `exitResult`. */
  function ExitResult(s: State): Outcome {
    if s.abnormal then ExitWithoutShutdown else Success
  }

  function Next(s: State, step: Step): State {
    match step
    case CancelOuter => s.(outerCancelled := true, runCancelled := true)
    case HangUp => s.(hungUp := true)
    case Garble => s.(garbled := true)
    case Look => if s.runCancelled then EndLoop(s, Plain) else s.(phase := Reading)
    case Deliver(m) => s.(phase := Handling, msg := m, exits := s.exits || m.Exit?)
    case HandlerStep(sent) => Handle(s, sent)
    case ReadFails(error) => EndLoop(s, error)
    case Die => s.(phase := Dead)
    case TakeContext => s.(main := Cleaning, result := ContextError)
    case TakeExit => s.(main := Cleaning, result := ExitResult(s))
    case TakeDone => s.(main := Deciding)
    case Decide =>
      s.(main := Cleaning,
         result := if s.closes > 0 then ExitResult(s) else if s.err.NoError? then Success else ConnectionError)
    case CancelRun => s.(main := Cancelled, runCancelled := true)
    case CloseStream => s.(main := Closing, streamClosed := true)
    case Finish => s.(main := Returned)
  }

  ghost predicate IsRun(trace: seq<State>) {
    && trace != [] && Init(trace[0])
    && forall i :: 0 <= i < |trace| - 1 ==> Moves(trace[i], trace[i + 1])
  }

  ghost predicate Moves(s: State, t: State) {
    exists step :: Enabled(s, step) && t == Next(s, step)
  }

  // ----- the invariant

  /** The exit that was received has not closed the channel yet. */
  predicate ExitUnderway(s: State) {
    (s.phase.Handling? && s.msg.Exit?) || s.phase.ExitAnswered? || s.phase.FlagStored?
  }

  /** The exit channel is closed once, by the one exit that is received; after that the loop receives nothing. */
  predicate ExitOnce(s: State) {
    && s.closes == (if s.once then 1 else 0)
    && (s.exits <==> s.once || ExitUnderway(s))
    && (s.once ==> !ExitUnderway(s) && !s.phase.Reading?)
    && (s.phase.ChannelClosed? || s.phase.ContextCancelled? ==> s.once)
    && (s.once && !s.phase.ChannelClosed? ==> s.runCancelled)
    && (s.phase.ShutdownAnswered? || (s.phase.Handling? && !s.msg.Exit?) ==> !s.exits)
  }

  /** The flags tell what was answered. */
  predicate FlagsExact(s: State) {
    && (s.answered <==> s.shutdown || (s.phase.ShutdownAnswered? && s.ok))
    && (s.phase.ShutdownAnswered? ==> !s.shutdown)
    && (s.once || s.phase.FlagStored? ==> s.abnormal == !s.answered)
  }

  /** The loop has ended, in whatever way. */
  predicate LoopOver(s: State) {
    Done(s) || s.phase.Dead?
  }

  predicate Decided(s: State) {
    !s.main.Waiting? && !s.main.Deciding?
  }

  /** The right result, given what was received and answered. */
  predicate Exact(s: State) {
    if s.result.ContextError? then s.outerCancelled
    else if s.exits then s.result == if s.answered then Success else ExitWithoutShutdown
    else LoopOver(s) && s.result.ConnectionError?
  }

  /** `Run` has decided only on what happened. */
  predicate ResultExact(s: State) {
    && (s.main.Deciding? ==> LoopOver(s))
    && (LoopOver(s) ==> !s.err.NoError?)
    && (Decided(s) ==> Exact(s) && (!s.result.ContextError? ==> s.once || LoopOver(s)))
  }

  /** `Run` cancels and closes before it waits. */
  predicate CleanedUp(s: State) {
    && (s.main.Cancelled? || s.main.Closing? ==> s.runCancelled)
    && (s.main.Closing? ==> s.streamClosed)
  }

  /** The loop has panicked. */
  predicate Crashed(s: State) {
    s.phase.Panicking? || s.phase.Dead?
  }

  /** What makes it panic: a reply failed, and then the loop ended on an error of another type. */
  predicate ErrorsClash(s: State) {
    s.replyFailed && (s.last.Plain? || s.last.Coded?)
  }

  /** Before the loop ends only failed replies are recorded. */
  predicate CrashExact(s: State) {
    && (s.last.NoError? <==> !LoopOver(s))
    && (!LoopOver(s) ==> s.err == if s.replyFailed then Wrapped else NoError)
    && (Crashed(s) <==> ErrorsClash(s))
  }

  predicate Inv(s: State) {
    ExitOnce(s) && FlagsExact(s) && ResultExact(s) && CleanedUp(s) && CrashExact(s)
  }

  lemma ExitOnceKeptByHandler(s: State, sent: bool)
    requires ExitOnce(s) && InHandler(s)
    ensures ExitOnce(Handle(s, sent))
  {
  }

  lemma FlagsKeptByHandler(s: State, sent: bool)
    requires ExitOnce(s) && FlagsExact(s) && InHandler(s)
    ensures FlagsExact(Handle(s, sent))
  {
  }

  lemma ResultKeptByHandler(s: State, sent: bool)
    requires ExitOnce(s) && FlagsExact(s) && ResultExact(s) && CrashExact(s) && InHandler(s)
    ensures ResultExact(Handle(s, sent))
  {
  }

  lemma CrashKeptByHandler(s: State, sent: bool)
    requires CrashExact(s) && InHandler(s)
    ensures CrashExact(Handle(s, sent))
  {
  }

  lemma HandlerKeeps(s: State, sent: bool)
    requires Inv(s) && InHandler(s)
    ensures Inv(Handle(s, sent))
  {
    ExitOnceKeptByHandler(s, sent);
    FlagsKeptByHandler(s, sent);
    ResultKeptByHandler(s, sent);
    CrashKeptByHandler(s, sent);
  }

  lemma LoopEndKeeps(s: State, error: ErrorType)
    requires Inv(s) && (s.phase.Looking? || s.phase.Reading?) && !error.NoError?
    ensures Inv(EndLoop(s, error))
  {
  }

  lemma ReadBeginKeeps(s: State)
    requires Inv(s) && s.phase.Looking? && !s.runCancelled
    ensures Inv(s.(phase := Reading))
  {
  }

  /** `Run` takes an event, or decides. */
  lemma ChoiceKeeps(s: State, step: Step)
    requires Inv(s) && Enabled(s, step) && (step.TakeContext? || step.TakeExit? || step.TakeDone? || step.Decide?)
    ensures Inv(Next(s, step))
  {
  }

  /** The steps of the environment, deliveries, the cleanup, and the death of the process. */
  lemma OtherStepKeeps(s: State, step: Step)
    requires Inv(s) && Enabled(s, step) && !step.HandlerStep? && !step.Look? && !step.ReadFails?
    requires !step.TakeContext? && !step.TakeExit? && !step.TakeDone? && !step.Decide?
    ensures Inv(Next(s, step))
  {
  }

  lemma StepKeeps(s: State, step: Step)
    requires Inv(s) && Enabled(s, step)
    ensures Inv(Next(s, step))
  {
    match step
    case HandlerStep(sent) => HandlerKeeps(s, sent);
    case Look => if s.runCancelled { LoopEndKeeps(s, Plain); } else { ReadBeginKeeps(s); }
    case ReadFails(error) => LoopEndKeeps(s, error);
    case TakeContext | TakeExit | TakeDone | Decide => ChoiceKeeps(s, step);
    case _ => OtherStepKeeps(s, step);
  }

  lemma {:induction false} RunInv(trace: seq<State>, i: nat)
    requires IsRun(trace) && i < |trace|
    ensures Inv(trace[i])
  {
    if i > 0 {
      RunInv(trace, i - 1);
      assert Moves(trace[i - 1], trace[i]);
      var step :| Enabled(trace[i - 1], step) && trace[i] == Next(trace[i - 1], step);
      StepKeeps(trace[i - 1], step);
    }
  }
}
