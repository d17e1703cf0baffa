/**
 The index as a cache under concurrency: internal/server/workspace.go, small step by small step.

 Three parties interleave.  The environment changes the disk at any time; a faithful watcher queues
 an event for every change below a workspace root, in order.  The message handler performs one
 operation at a time.  The scanner visits paths in any order.  Handler and scanner change documents
 and index only while they hold the workspace mutex; the disk may change between any two steps.
 */
module Coherence {
  import opened Bytes
  import opened Syntax
  import opened SourceGraph
  import opened Index
  import opened Documents
  import opened Scanner
  import opened Workspace

  // ----- states

  datatype Operation =
    | OpOpen(uri: Uri, lang: ByteString, version: int, text: ByteString)
    | OpUpdate(uri: Uri, version: int, text: ByteString)
    | OpSave(uri: Uri, saved: Option<ByteString>)
    | OpClose(uri: Uri)
    | OpWatch(event: FileEvent)

  /** Where the handler is. All but `Idle` and `Waiting` hold the mutex. */
  datatype Handler =
    | Idle
    | Waiting(op: Operation)
    | Entered(op: Operation)
    | Stored(uri: Uri)                        // document changed, its tree is to be indexed
    | Checking(uri: Uri)                      // not open: is it a shell file of the workspace?
    | Reading(uri: Uri)                       // it is: read it
    | Writing(uri: Uri, src: ByteString)      // read: index its tree
    | Leaving

  /** Where the scanner is. `Locked` to `Unlocking` hold the mutex. */
  datatype Scan =
    | NotStarted
    | Walking
    | Found(uri: Uri)                         // accepted by an unlocked look at the disk
    | Locked(uri: Uri)
    | Visiting(uri: Uri)                      // not open
    | Indexing(uri: Uri, src: ByteString)
    | Unlocking(uri: Uri)
    | Finished
    | Aborted

  /** `todo`: listed paths not visited yet. `current`: the watch event in progress. */
  datatype State = State(disk: Disk, files: Files, handler: Handler, scan: Scan, todo: set<Uri>,
                         queue: seq<FileEvent>, current: Option<FileEvent>)

  predicate HandlerLocks(h: Handler) {
    !h.Idle? && !h.Waiting?
  }

  predicate ScanLocks(p: Scan) {
    p.Locked? || p.Visiting? || p.Indexing? || p.Unlocking?
  }

  /** The workspace mutex is not held. */
  predicate Free(s: State) {
    !HandlerLocks(s.handler) && !ScanLocks(s.scan)
  }

  // ----- steps

  datatype Step =
    | WriteDisk(uri: Uri, content: ByteString)
    | DeleteDisk(uri: Uri)
    | Receive(op: Operation)
    | TakeEvent
    | HandlerStep
    | StartScan
    | Look(uri: Uri)
    | ScanStep
    | FinishScan
    | AbortScan

  predicate Init(s: State) {
    && s.files == Files(map[], map[])
    && s.handler == Idle && s.scan == NotStarted && s.todo == {} && s.queue == [] && s.current == None
  }

  function Notify(cfg: Config, s: State, u: Uri, kind: ChangeKind): seq<FileEvent> {
    if cfg.inRoots(u) then s.queue + [FileEvent(u, kind)] else s.queue
  }

  /** A scan goes through the workspace, but not into the skipped directories. */
  predicate Listed(cfg: Config, u: Uri) {
    cfg.inRoots(u) && !cfg.skipped(u)
  }

  predicate Enabled(cfg: Config, s: State, step: Step) {
    match step
    case WriteDisk(_, _) => true
    case DeleteDisk(u) => u in s.disk
    case Receive(op) => s.handler == Idle && !op.OpWatch?
    case TakeEvent => s.handler == Idle && s.queue != []
    case HandlerStep => !s.handler.Idle? && (s.handler.Waiting? ==> Free(s))
    case StartScan => s.scan == NotStarted
    case Look(u) => s.scan == Walking && Listed(cfg, u)
    case ScanStep => ScanLocks(s.scan) || (s.scan.Found? && Free(s))
    case FinishScan => s.scan == Walking && s.todo == {}
    case AbortScan => s.scan == NotStarted || s.scan == Walking
  }

  /** What the handler does once it holds the mutex. */
  function Enter(cfg: Config, s: State, op: Operation): State {
    var docs := s.files.docs;
    match op
    case OpOpen(u, lang, version, text) =>
      s.(files := s.files.(docs := docs[u := Parsed(cfg.parse, lang, version, text)]), handler := Stored(u))
    case OpUpdate(u, version, text) =>
      if u in docs then
        s.(files := s.files.(docs := docs[u := Parsed(cfg.parse, docs[u].lang, version, text)]), handler := Stored(u))
      else s.(handler := Leaving)
    case OpSave(u, saved) =>
      if u !in docs then s.(handler := Leaving)
      else if saved.None? then s.(handler := Stored(u))
      else s.(files := s.files.(docs := docs[u := Parsed(cfg.parse, docs[u].lang, docs[u].version, saved.value)]),
              handler := Stored(u))
    case OpClose(u) =>
      if u in docs then s.(files := s.files.(docs := docs - {u}), handler := Checking(u)) else s.(handler := Leaving)
    case OpWatch(e) =>
      if e.uri in docs then s.(handler := Leaving)
      else if e.kind != Deleted then s.(handler := Checking(e.uri))
      else if cfg.inRoots(e.uri) then s.(files := Indexed(s.files, e.uri, None), handler := Leaving)
      else s.(handler := Leaving)
  }

  function Indexed(f: Files, u: Uri, file: Option<Node>): Files {
    f.(index := Put(f.index, u, file))
  }

  function HandlerNext(cfg: Config, s: State): State {
    match s.handler
    case Idle => s
    case Waiting(op) => s.(handler := Entered(op))
    case Entered(op) => Enter(cfg, s, op)
    case Stored(u) =>
      if u in s.files.docs then s.(files := Indexed(s.files, u, s.files.docs[u].ast), handler := Leaving) else s
    case Checking(u) =>
      if ShellFile(cfg, s.disk, u) then s.(handler := Reading(u))
      else s.(files := Indexed(s.files, u, None), handler := Leaving)
    case Reading(u) =>
      if u in s.disk then s.(handler := Writing(u, s.disk[u]))
      else s.(files := Indexed(s.files, u, None), handler := Leaving)
    case Writing(u, src) => s.(files := Indexed(s.files, u, Tree(cfg, src)), handler := Leaving)
    case Leaving => s.(handler := Idle, current := None)
  }

  function ScanNext(cfg: Config, s: State): State {
    match s.scan
    case Found(u) => s.(scan := Locked(u))
    case Locked(u) => s.(scan := if u in s.files.docs then Unlocking(u) else Visiting(u))
    case Visiting(u) => s.(scan := if u in s.disk then Indexing(u, s.disk[u]) else Unlocking(u))
    case Indexing(u, src) => s.(files := Indexed(s.files, u, Tree(cfg, src)), scan := Unlocking(u))
    case Unlocking(u) => s.(scan := Walking, todo := s.todo - {u})
    case _ => s
  }

  function Next(cfg: Config, s: State, step: Step): State {
    match step
    case WriteDisk(u, content) =>
      s.(disk := s.disk[u := content], queue := Notify(cfg, s, u, if u in s.disk then Changed else Created))
    case DeleteDisk(u) =>
      s.(disk := s.disk - {u}, queue := Notify(cfg, s, u, Deleted), todo := s.todo - {u})
    case Receive(op) => s.(handler := Waiting(op))
    case TakeEvent =>
      if s.queue == [] then s
      else s.(handler := Waiting(OpWatch(s.queue[0])), current := Some(s.queue[0]), queue := s.queue[1..])
    case HandlerStep => HandlerNext(cfg, s)
    case StartScan => s.(scan := Walking, todo := set u | u in s.disk && Listed(cfg, u))
    case Look(u) =>
      if IsShellPath(cfg.path(u), Lookup(s.disk, u)) then s.(scan := Found(u)) else s.(todo := s.todo - {u})
    case ScanStep => ScanNext(cfg, s)
    case FinishScan => s.(scan := Finished)
    case AbortScan => s.(scan := Aborted)
  }

  ghost predicate IsRun(cfg: Config, trace: seq<State>) {
    && trace != [] && Init(trace[0])
    && forall i :: 0 <= i < |trace| - 1 ==> Moves(cfg, trace[i], trace[i + 1])
  }

  ghost predicate Moves(cfg: Config, s: State, t: State) {
    exists step :: Enabled(cfg, s, step) && t == Next(cfg, s, step)
  }

  // ----- the invariant

  predicate Queued(s: State, u: Uri) {
    exists i :: 0 <= i < |s.queue| && s.queue[i].uri == u
  }

  /** The handler is about to act on the closed file `u`. */
  predicate HandlerOwes(s: State, u: Uri) {
    || (s.current.Some? && s.current.value.uri == u && (s.handler.Waiting? || s.handler.Entered?))
    || (s.handler.Checking? && s.handler.uri == u)
    || (s.handler.Reading? && s.handler.uri == u)
    || (s.handler.Writing? && s.handler.uri == u)
  }

  /** A watch event for the file is pending or in progress, or its close is. */
  predicate Owed(s: State, u: Uri) {
    Queued(s, u) || HandlerOwes(s, u)
  }

  /** Handler and scanner are never both inside the mutex, and their local state fits the documents. */
  predicate Control(s: State) {
    && !(HandlerLocks(s.handler) && ScanLocks(s.scan))
    && (s.handler.Stored? ==> s.handler.uri in s.files.docs)
    && ((s.handler.Checking? || s.handler.Reading? || s.handler.Writing?) ==> s.handler.uri !in s.files.docs)
    && ((s.scan.Visiting? || s.scan.Indexing?) ==> s.scan.uri !in s.files.docs)
    && (s.current.Some? ==> !s.handler.Idle?)
    && ((s.handler.Waiting? || s.handler.Entered?) ==>
          s.current == if s.handler.op.OpWatch? then Some(s.handler.op.event) else None)
  }

  /** Each open document is paired with its tree and, but for the moment between two writes, indexed. */
  ghost predicate Buffers(cfg: Config, s: State) {
    forall u {:trigger s.files.docs[u]} :: u in s.files.docs ==>
      && Paired(cfg.parse, s.files.docs[u])
      && (s.handler != Stored(u) ==> Lookup(s.files.index, u) == s.files.docs[u].ast)
  }

  /** An entry of a closed file of which nothing is owed is the tree of what is on disk. */
  predicate EntryCurrent(cfg: Config, s: State, u: Uri) {
    (u in s.files.index && u !in s.files.docs && !Owed(s, u)) ==>
      (u in s.disk && Tree(cfg, s.disk[u]) == Some(s.files.index[u]))
  }

  /** What was read is still on disk, or an event will bring the handler back to it. */
  predicate ReadCurrent(s: State) {
    && (s.handler.Writing? ==>
          Queued(s, s.handler.uri) || (s.handler.uri in s.disk && s.disk[s.handler.uri] == s.handler.src))
    && (s.scan.Indexing? ==>
          Owed(s, s.scan.uri) || (s.scan.uri in s.disk && s.disk[s.scan.uri] == s.scan.src))
  }

  /** Only files of the workspace stay indexed once closed, and the scanner looks at no others. */
  ghost predicate Inside(cfg: Config, s: State) {
    && (forall u :: u in s.files.index && u !in s.files.docs && !HandlerOwes(s, u) ==> cfg.inRoots(u))
    && ((s.scan.Found? || ScanLocks(s.scan)) ==> Listed(cfg, s.scan.uri))
    && ((s.handler.Reading? || s.handler.Writing?) ==> cfg.inRoots(s.handler.uri))
    && (forall i :: 0 <= i < |s.queue| ==> cfg.inRoots(s.queue[i].uri))
    && (s.current.Some? ==> cfg.inRoots(s.current.value.uri))
  }

  /** The last event of a file that is still pending or in progress says whether the file is on disk. */
  function LastKind(queue: seq<FileEvent>, u: Uri): Option<ChangeKind> {
    if queue == [] then None
    else if queue[|queue| - 1].uri == u then Some(queue[|queue| - 1].kind)
    else LastKind(queue[..|queue| - 1], u)
  }

  function Pending(s: State): seq<FileEvent> {
    (if s.current.Some? then [s.current.value] else []) + s.queue
  }

  predicate EventsTruthful(s: State, u: Uri) {
    LastKind(Pending(s), u).Some? ==> (LastKind(Pending(s), u).value == Deleted <==> u !in s.disk)
  }

  /** The extension alone makes the path a shell script. */
  predicate ShellByExtension(cfg: Config, u: Uri) {
    ShellExtension(ToLower(Ext(cfg.path(u))))
  }

  /** The extension alone makes the path no shell script. */
  predicate OtherByExtension(cfg: Config, u: Uri) {
    Ext(cfg.path(u)) != [] && !ShellByExtension(cfg, u)
  }

  /** A walk has still to pay for the file, or never will. */
  predicate Unscanned(cfg: Config, s: State, u: Uri) {
    || s.scan == NotStarted || s.scan == Aborted || !Listed(cfg, u)
    || (u in s.todo && s.scan != Unlocking(u))
  }

  /** A readable shell script of which nothing is owed is indexed, unless its scan is outstanding. */
  predicate EntryPresent(cfg: Config, s: State, u: Uri) {
    (cfg.inRoots(u) && ShellByExtension(cfg, u) && u !in s.files.docs && !Owed(s, u) &&
     u in s.disk && Tree(cfg, s.disk[u]).Some? && !Unscanned(cfg, s, u))
    ==> u in s.files.index
  }

  /** A closed file with another extension is not indexed. */
  predicate EntryAbsent(cfg: Config, s: State, u: Uri) {
    (OtherByExtension(cfg, u) && u !in s.files.docs && !HandlerOwes(s, u)) ==> u !in s.files.index
  }

  /**
   A file that no scan visits is indexed only as a shell script, unless something of it is owed; the
   handler has found it to be one, or an event will bring it back.
   */
  predicate EntryScript(cfg: Config, s: State, u: Uri) {
    cfg.skipped(u) ==>
      && (u in s.files.index && u !in s.files.docs && !Owed(s, u) ==> ShellFile(cfg, s.disk, u))
      && ((s.handler.Reading? || s.handler.Writing?) && s.handler.uri == u && !Queued(s, u) ==>
          ShellFile(cfg, s.disk, u))
  }

  /** Files in flight have passed the shell check. */
  predicate Vetted(cfg: Config, s: State) {
    && ((s.scan.Found? || ScanLocks(s.scan)) ==> !OtherByExtension(cfg, s.scan.uri))
    && ((s.handler.Reading? || s.handler.Writing?) ==> !OtherByExtension(cfg, s.handler.uri))
  }

  ghost predicate Inv(cfg: Config, s: State) {
    && Control(s)
    && Buffers(cfg, s)
    && ReadCurrent(s)
    && Inside(cfg, s)
    && Vetted(cfg, s)
    && (forall u :: EntryCurrent(cfg, s, u))
    && (forall u :: EventsTruthful(s, u))
    && (forall u :: EntryPresent(cfg, s, u))
    && (forall u :: EntryAbsent(cfg, s, u))
    && (forall u :: EntryScript(cfg, s, u))
  }

  // ----- what a step does to the events

  /** A file is queued after a step if it was, but for the event taken, or if the disk changed under it. */
  lemma QueuedNext(cfg: Config, s: State, step: Step, u: Uri)
    requires Enabled(cfg, s, step)
    ensures var t := Next(cfg, s, step);
      && (step.WriteDisk? || step.DeleteDisk? ==>
          (Queued(t, u) <==> (Queued(s, u) || (u == step.uri && cfg.inRoots(u)))))
      && (step.TakeEvent? ==> (Queued(s, u) <==> (Queued(t, u) || s.queue[0].uri == u)))
      && (!step.WriteDisk? && !step.DeleteDisk? && !step.TakeEvent? ==> t.queue == s.queue)
  {
    var t := Next(cfg, s, step);
    if step.WriteDisk? || step.DeleteDisk? {
      if Queued(s, u) {
        var i :| 0 <= i < |s.queue| && s.queue[i].uri == u;
        assert t.queue[i].uri == u;
      }
      if u == step.uri && cfg.inRoots(u) {
        assert t.queue[|s.queue|].uri == u;
      }
    }
    if step.TakeEvent? && Queued(s, u) {
      var i :| 0 <= i < |s.queue| && s.queue[i].uri == u;
      if i > 0 { assert t.queue[i - 1].uri == u; }
    }
    if step.TakeEvent? && Queued(t, u) {
      var i :| 0 <= i < |t.queue| && t.queue[i].uri == u;
      assert s.queue[i + 1].uri == u;
    }
  }

  lemma {:induction false} LastKindPrepend(e: FileEvent, queue: seq<FileEvent>, u: Uri)
    ensures LastKind([e] + queue, u) ==
              if LastKind(queue, u).Some? then LastKind(queue, u) else if e.uri == u then Some(e.kind) else None
  {
    if queue == [] {
      assert [e] + queue == [e] && [e][..0] == [];
    } else {
      var k := |queue| - 1;
      assert ([e] + queue)[..k + 1] == [e] + queue[..k];
      LastKindPrepend(e, queue[..k], u);
    }
  }

  lemma {:induction false} LastKindQueued(s: State, queue: seq<FileEvent>, u: Uri)
    requires queue <= s.queue
    ensures LastKind(queue, u).Some? <==> exists i :: 0 <= i < |queue| && queue[i].uri == u
  {
    if queue != [] {
      var k := |queue| - 1;
      LastKindQueued(s, queue[..k], u);
      assert queue == queue[..k] + [queue[k]];
    }
  }

  /** Only the environment queues events, and only the end of an operation clears the one in progress. */
  lemma EventFrame(cfg: Config, s: State, step: Step)
    requires Control(s) && Enabled(cfg, s, step) && !step.WriteDisk? && !step.DeleteDisk?
    ensures var t := Next(cfg, s, step);
      t.disk == s.disk && (Pending(t) == Pending(s) || (s.current.Some? && t.current.None? && t.queue == s.queue))
  {
    if step.TakeEvent? {
      assert Pending(Next(cfg, s, step)) == Pending(s);
    }
  }

  lemma ClearedEventTruthful(s: State, t: State, u: Uri)
    requires EventsTruthful(s, u) && t.disk == s.disk && s.current.Some? && t.current.None? && t.queue == s.queue
    ensures EventsTruthful(t, u)
  {
    LastKindPrepend(s.current.value, s.queue, u);
    assert Pending(t) == s.queue;
  }

  lemma AppendedEventTruthful(s: State, t: State, e: FileEvent, u: Uri)
    requires EventsTruthful(s, u) && t.current == s.current && t.queue == s.queue + [e]
    requires u == e.uri ==> (e.kind == Deleted <==> u !in t.disk)
    requires u != e.uri ==> (u in t.disk <==> u in s.disk)
    ensures EventsTruthful(t, u)
  {
    assert Pending(t) == Pending(s) + [e];
    assert Pending(t)[..|Pending(s)|] == Pending(s);
  }

  lemma ChangedDiskTruthful(cfg: Config, s: State, step: Step, u: Uri)
    requires Inside(cfg, s) && EventsTruthful(s, u) && Enabled(cfg, s, step) && (step.WriteDisk? || step.DeleteDisk?)
    ensures EventsTruthful(Next(cfg, s, step), u)
  {
    var t := Next(cfg, s, step);
    if cfg.inRoots(step.uri) {
      AppendedEventTruthful(s, t, t.queue[|s.queue|], u);
    } else if u == step.uri {
      NotPending(cfg, s, u);
      assert Pending(t) == Pending(s);
    }
  }

  lemma EventsKept(cfg: Config, s: State, step: Step, u: Uri)
    requires Control(s) && Inside(cfg, s) && EventsTruthful(s, u) && Enabled(cfg, s, step)
    ensures EventsTruthful(Next(cfg, s, step), u)
  {
    if step.WriteDisk? || step.DeleteDisk? {
      ChangedDiskTruthful(cfg, s, step, u);
    } else {
      EventFrame(cfg, s, step);
      if Pending(Next(cfg, s, step)) != Pending(s) { ClearedEventTruthful(s, Next(cfg, s, step), u); }
    }
  }

  /** No event of a file outside the workspace is ever pending. */
  lemma {:induction false} NotPending(cfg: Config, s: State, u: Uri)
    requires Inside(cfg, s) && !cfg.inRoots(u)
    ensures LastKind(Pending(s), u).None?
  {
    LastKindQueued(s, s.queue, u);
    if s.current.Some? {
      LastKindPrepend(s.current.value, s.queue, u);
    } else {
      assert Pending(s) == s.queue;
    }
  }

  /** A deletion in progress with no later event for the file: the file is gone. */
  lemma DeletionInProgress(cfg: Config, s: State, u: Uri)
    requires EventsTruthful(s, u) && s.current == Some(FileEvent(u, Deleted)) && !Queued(s, u)
    ensures u !in s.disk
  {
    LastKindQueued(s, s.queue, u);
    LastKindPrepend(s.current.value, s.queue, u);
  }

  // ----- the invariant is kept

  lemma InitInv(cfg: Config, s: State)
    requires Init(s)
    ensures Inv(cfg, s)
  {
  }

  lemma ControlKept(cfg: Config, s: State, step: Step)
    requires Control(s) && Enabled(cfg, s, step)
    ensures Control(Next(cfg, s, step))
  {
  }

  lemma BuffersKeptByHandler(cfg: Config, s: State)
    requires Control(s) && Buffers(cfg, s) && Enabled(cfg, s, HandlerStep) && !s.handler.Entered?
    ensures Buffers(cfg, HandlerNext(cfg, s))
  {
  }

  lemma BuffersKeptByEntering(cfg: Config, s: State)
    requires Control(s) && Buffers(cfg, s) && s.handler.Entered?
    ensures Buffers(cfg, Enter(cfg, s, s.handler.op))
  {
  }

  lemma BuffersKept(cfg: Config, s: State, step: Step)
    requires Control(s) && Buffers(cfg, s) && Enabled(cfg, s, step)
    ensures Buffers(cfg, Next(cfg, s, step))
  {
    if step.HandlerStep? {
      if s.handler.Entered? { BuffersKeptByEntering(cfg, s); } else { BuffersKeptByHandler(cfg, s); }
    }
  }

  lemma ReadKept(cfg: Config, s: State, step: Step)
    requires Control(s) && Inside(cfg, s) && ReadCurrent(s) && Enabled(cfg, s, step)
    ensures ReadCurrent(Next(cfg, s, step))
  {
    if s.handler.Writing? || s.handler.Reading? { QueuedNext(cfg, s, step, s.handler.uri); }
    if s.scan.Indexing? || s.scan.Visiting? { QueuedNext(cfg, s, step, s.scan.uri); }
  }

  lemma InsideKeptByHandler(cfg: Config, s: State)
    requires Control(s) && Inside(cfg, s) && Enabled(cfg, s, HandlerStep)
    ensures Inside(cfg, HandlerNext(cfg, s))
  {
  }

  lemma InsideKept(cfg: Config, s: State, step: Step)
    requires Control(s) && Inside(cfg, s) && Enabled(cfg, s, step)
    ensures Inside(cfg, Next(cfg, s, step))
  {
    if step.HandlerStep? { InsideKeptByHandler(cfg, s); }
  }

  lemma VettedKept(cfg: Config, s: State, step: Step)
    requires Vetted(cfg, s) && Enabled(cfg, s, step)
    ensures Vetted(cfg, Next(cfg, s, step))
  {
  }

  lemma EntryCurrentByHandler(cfg: Config, s: State, u: Uri)
    requires Control(s) && Inside(cfg, s) && ReadCurrent(s) && EntryCurrent(cfg, s, u) && Enabled(cfg, s, HandlerStep)
    ensures EntryCurrent(cfg, HandlerNext(cfg, s), u)
  {
    QueuedNext(cfg, s, HandlerStep, u);
  }

  lemma EntryCurrentKept(cfg: Config, s: State, step: Step, u: Uri)
    requires Control(s) && Inside(cfg, s) && ReadCurrent(s) && EntryCurrent(cfg, s, u) && Enabled(cfg, s, step)
    ensures EntryCurrent(cfg, Next(cfg, s, step), u)
  {
    if step.HandlerStep? {
      EntryCurrentByHandler(cfg, s, u);
    } else {
      QueuedNext(cfg, s, step, u);
    }
  }

  lemma EntryPresentByEntering(cfg: Config, s: State, u: Uri)
    requires EventsTruthful(s, u) && EntryPresent(cfg, s, u) && Control(s) && s.handler.Entered?
    ensures EntryPresent(cfg, Enter(cfg, s, s.handler.op), u)
  {
    if s.current == Some(FileEvent(u, Deleted)) && !Queued(s, u) { DeletionInProgress(cfg, s, u); }
  }

  lemma EntryPresentByHandler(cfg: Config, s: State, u: Uri)
    requires ReadCurrent(s) && EntryPresent(cfg, s, u) && Control(s) && Enabled(cfg, s, HandlerStep)
    requires !s.handler.Entered?
    ensures EntryPresent(cfg, HandlerNext(cfg, s), u)
  {
  }

  lemma EntryPresentByScan(cfg: Config, s: State, u: Uri)
    requires ReadCurrent(s) && EntryPresent(cfg, s, u) && Control(s) && Enabled(cfg, s, ScanStep)
    ensures EntryPresent(cfg, ScanNext(cfg, s), u)
  {
  }

  lemma EntryPresentKept(cfg: Config, s: State, step: Step, u: Uri)
    requires Control(s) && ReadCurrent(s) && EventsTruthful(s, u) && EntryPresent(cfg, s, u) && Enabled(cfg, s, step)
    ensures EntryPresent(cfg, Next(cfg, s, step), u)
  {
    if step.HandlerStep? {
      if s.handler.Entered? { EntryPresentByEntering(cfg, s, u); } else { EntryPresentByHandler(cfg, s, u); }
    } else if step.ScanStep? {
      EntryPresentByScan(cfg, s, u);
    } else {
      QueuedNext(cfg, s, step, u);
    }
  }

  lemma EntryAbsentKept(cfg: Config, s: State, step: Step, u: Uri)
    requires Control(s) && Vetted(cfg, s) && Inside(cfg, s) && EntryAbsent(cfg, s, u) && Enabled(cfg, s, step)
    ensures EntryAbsent(cfg, Next(cfg, s, step), u)
  {
  }

  lemma EntryScriptByHandler(cfg: Config, s: State, u: Uri)
    requires Control(s) && Inside(cfg, s) && EntryScript(cfg, s, u) && Enabled(cfg, s, HandlerStep)
    requires !s.handler.Entered?
    ensures EntryScript(cfg, HandlerNext(cfg, s), u)
  {
  }

  lemma EntryScriptByEntering(cfg: Config, s: State, u: Uri)
    requires Control(s) && Inside(cfg, s) && EntryScript(cfg, s, u) && s.handler.Entered?
    ensures EntryScript(cfg, Enter(cfg, s, s.handler.op), u)
  {
  }

  lemma EntryScriptKept(cfg: Config, s: State, step: Step, u: Uri)
    requires Control(s) && Inside(cfg, s) && EntryScript(cfg, s, u) && Enabled(cfg, s, step)
    ensures EntryScript(cfg, Next(cfg, s, step), u)
  {
    if step.HandlerStep? {
      if s.handler.Entered? { EntryScriptByEntering(cfg, s, u); } else { EntryScriptByHandler(cfg, s, u); }
    } else {
      QueuedNext(cfg, s, step, u);
    }
  }

  lemma StepKeeps(cfg: Config, s: State, step: Step)
    requires Inv(cfg, s) && Enabled(cfg, s, step)
    ensures Inv(cfg, Next(cfg, s, step))
  {
    ControlKept(cfg, s, step);
    BuffersKept(cfg, s, step);
    ReadKept(cfg, s, step);
    InsideKept(cfg, s, step);
    VettedKept(cfg, s, step);
    forall u ensures EntryCurrent(cfg, Next(cfg, s, step), u) { EntryCurrentKept(cfg, s, step, u); }
    forall u ensures EventsTruthful(Next(cfg, s, step), u) { EventsKept(cfg, s, step, u); }
    forall u ensures EntryPresent(cfg, Next(cfg, s, step), u) { EntryPresentKept(cfg, s, step, u); }
    forall u ensures EntryAbsent(cfg, Next(cfg, s, step), u) { EntryAbsentKept(cfg, s, step, u); }
    forall u ensures EntryScript(cfg, Next(cfg, s, step), u) { EntryScriptKept(cfg, s, step, u); }
  }

  // ----- runs

  lemma {:induction false} RunInv(cfg: Config, trace: seq<State>, i: nat)
    requires IsRun(cfg, trace) && i < |trace|
    ensures Inv(cfg, trace[i])
  {
    if i == 0 {
      InitInv(cfg, trace[0]);
    } else {
      RunInv(cfg, trace, i - 1);
      assert Moves(cfg, trace[i - 1], trace[i]);
      var step :| Enabled(cfg, trace[i - 1], step) && trace[i] == Next(cfg, trace[i - 1], step);
      StepKeeps(cfg, trace[i - 1], step);
    }
  }

  /** No watch event of the file is pending or in progress. */
  ghost predicate Settled(s: State, u: Uri) {
    !Queued(s, u) && (s.current.Some? ==> s.current.value.uri != u)
  }

  /** The handler, which also answers the queries, is not inside the mutex; the scanner may be. */
  predicate HandlerOutside(s: State) {
    !HandlerLocks(s.handler)
  }

  /**
   In every reachable state with the handler outside the mutex, each open document is parsed from its text
   and indexed by that tree.
   */
  lemma OpenBuffersIndexed(cfg: Config, trace: seq<State>, i: nat)
    requires IsRun(cfg, trace) && i < |trace| && HandlerOutside(trace[i])
    ensures BuffersIndexed(cfg, trace[i].files)
  {
    RunInv(cfg, trace, i);
  }

  /**
   In every reachable state with the handler outside the mutex, an entry of a closed file with no event pending or in
   progress is the tree of what is on disk now, and the file lies in the workspace.
   */
  lemma IndexedEntriesCurrent(cfg: Config, trace: seq<State>, i: nat, u: Uri)
    requires IsRun(cfg, trace) && i < |trace| && HandlerOutside(trace[i])
    requires var s := trace[i]; u in s.files.index && u !in s.files.docs && Settled(s, u)
    ensures var s := trace[i]; cfg.inRoots(u) && u in s.disk && Tree(cfg, s.disk[u]) == Some(s.files.index[u])
  {
    RunInv(cfg, trace, i);
    assert EntryCurrent(cfg, trace[i], u);
  }

  /**
   Once a scan has finished, the entry of every closed and settled file of the workspace with one of
   the six endings, outside the skipped directories, is exactly the tree of what is on disk: present
   for a readable file that parses, absent otherwise.
   */
  lemma ScanComplete(cfg: Config, trace: seq<State>, i: nat, u: Uri)
    requires IsRun(cfg, trace) && i < |trace| && HandlerOutside(trace[i]) && trace[i].scan == Finished
    requires cfg.inRoots(u) && !cfg.skipped(u) && EndsAsShell(cfg.path(u))
    requires u !in trace[i].files.docs && Settled(trace[i], u)
    ensures var s := trace[i]; Lookup(s.files.index, u) == if u in s.disk then cfg.parse(s.disk[u]).ast else None
  {
    ExtensionIff(cfg.path(u));
    RunInv(cfg, trace, i);
    assert EntryCurrent(cfg, trace[i], u) && EntryPresent(cfg, trace[i], u);
    FinishedTodoEmpty(cfg, trace, i);
  }

  /** A finished scan has nothing left to visit. */
  lemma {:induction false} FinishedTodoEmpty(cfg: Config, trace: seq<State>, i: nat)
    requires IsRun(cfg, trace) && i < |trace|
    ensures trace[i].scan == Finished ==> trace[i].todo == {}
  {
    if i > 0 {
      FinishedTodoEmpty(cfg, trace, i - 1);
      assert Moves(cfg, trace[i - 1], trace[i]);
    }
  }

  /**
   A closed file whose extension is not a shell's is never indexed while the handler is outside the mutex
   and its events are settled.
   */
  lemma OtherFilesNotIndexed(cfg: Config, trace: seq<State>, i: nat, u: Uri)
    requires IsRun(cfg, trace) && i < |trace| && HandlerOutside(trace[i])
    requires HasExtension(cfg.path(u)) && !EndsAsShell(cfg.path(u))
    requires u !in trace[i].files.docs && Settled(trace[i], u)
    ensures u !in trace[i].files.index
  {
    ExtensionIff(cfg.path(u));
    RunInv(cfg, trace, i);
    assert EntryAbsent(cfg, trace[i], u);
  }

  /** A closed and settled file in a skipped directory is indexed only while it is a shell script. */
  lemma SkippedEntriesAreScripts(cfg: Config, trace: seq<State>, i: nat, u: Uri)
    requires IsRun(cfg, trace) && i < |trace| && HandlerOutside(trace[i])
    requires cfg.skipped(u) && u in trace[i].files.index && u !in trace[i].files.docs && Settled(trace[i], u)
    ensures ScriptOnDisk(cfg, trace[i].disk, u)
  {
    RunInv(cfg, trace, i);
    assert EntryScript(cfg, trace[i], u) && EntryCurrent(cfg, trace[i], u);
    ShellPathIff(cfg.path(u), Lookup(trace[i].disk, u));
  }

  /** The handler is on its way to change the document or its entry. */
  predicate ActsOn(s: State, u: Uri) {
    || (s.handler.Entered? && !s.handler.op.OpWatch? && s.handler.op.uri == u)
    || s.handler == Stored(u)
  }

  lemma HandlerLeavesOthers(cfg: Config, s: State, u: Uri)
    requires Control(s) && !s.handler.Idle? && u in s.files.docs && !ActsOn(s, u)
    ensures var t := HandlerNext(cfg, s);
      && u in t.files.docs && t.files.docs[u] == s.files.docs[u]
      && Lookup(t.files.index, u) == Lookup(s.files.index, u)
  {
  }

  /** No step of the scanner, the environment, or a watch event changes an open document or its entry. */
  lemma OpenBufferUntouched(cfg: Config, s: State, step: Step, u: Uri)
    requires Inv(cfg, s) && Enabled(cfg, s, step) && u in s.files.docs && (step.HandlerStep? ==> !ActsOn(s, u))
    ensures var t := Next(cfg, s, step);
      && u in t.files.docs && t.files.docs[u] == s.files.docs[u]
      && Lookup(t.files.index, u) == Lookup(s.files.index, u)
  {
    if step.HandlerStep? {
      HandlerLeavesOthers(cfg, s, u);
    } else {
      assert step.ScanStep? || Next(cfg, s, step).files == s.files;
    }
  }

  // ----- an operation that is not interrupted

  /** What an operation does when nothing else happens. */
  function Effect(cfg: Config, disk: Disk, f: Files, op: Operation): Files {
    match op
    case OpOpen(u, lang, version, text) => AfterOpen(cfg, f, u, lang, version, text)
    case OpUpdate(u, version, text) => AfterUpdate(cfg, f, u, version, text)
    case OpSave(u, saved) => AfterSave(cfg, f, u, saved)
    case OpClose(u) => AfterClose(cfg, disk, f, u)
    case OpWatch(e) => AfterWatch(cfg, disk, f, e)
  }

  function HandlerSteps(cfg: Config, s: State, n: nat): State
    decreases n
  {
    if n == 0 || s.handler == Idle then s else HandlerSteps(cfg, HandlerNext(cfg, s), n - 1)
  }

  /** Once the entry is written one step remains. */
  lemma {:induction false} UninterruptedLeave(cfg: Config, s: State, n: nat)
    requires s.handler == Leaving && n > 0
    ensures HandlerSteps(cfg, s, n) == s.(handler := Idle, current := None)
  {
    var t := HandlerNext(cfg, s);
    assert HandlerSteps(cfg, s, n) == HandlerSteps(cfg, t, n - 1);
    assert t.handler == Idle;
  }

  /** At most four steps finish the handling of a closed file. */
  lemma {:induction false} UninterruptedCheck(cfg: Config, s: State, u: Uri)
    requires s.handler == Checking(u)
    ensures HandlerSteps(cfg, s, 4) == s.(files := Reindexed(cfg, s.disk, s.files, u), handler := Idle, current := None)
  {
    var t := HandlerNext(cfg, s);
    assert HandlerSteps(cfg, s, 4) == HandlerSteps(cfg, t, 3);
    if t.handler == Leaving {
      UninterruptedLeave(cfg, t, 3);
    } else {
      var v := HandlerNext(cfg, t);
      assert HandlerSteps(cfg, t, 3) == HandlerSteps(cfg, v, 2);
      if v.handler == Leaving {
        UninterruptedLeave(cfg, v, 2);
      } else {
        assert HandlerSteps(cfg, v, 2) == HandlerSteps(cfg, HandlerNext(cfg, v), 1);
        UninterruptedLeave(cfg, HandlerNext(cfg, v), 1);
      }
    }
  }

  /** Two steps index a stored document. */
  lemma {:induction false} UninterruptedStored(cfg: Config, s: State, u: Uri)
    requires s.handler == Stored(u) && u in s.files.docs
    ensures HandlerSteps(cfg, s, 4)
         == s.(files := Indexed(s.files, u, s.files.docs[u].ast), handler := Idle, current := None)
  {
    var t := HandlerNext(cfg, s);
    assert HandlerSteps(cfg, s, 4) == HandlerSteps(cfg, t, 3);
    UninterruptedLeave(cfg, t, 3);
  }

  /** Two steps take the mutex and begin. */
  lemma {:induction false} UninterruptedEnter(cfg: Config, s: State, op: Operation)
    requires s.handler == Waiting(op)
    ensures HandlerSteps(cfg, s, 6) == HandlerSteps(cfg, Enter(cfg, s.(handler := Entered(op)), op), 4)
  {
    var e := HandlerNext(cfg, s);
    assert HandlerSteps(cfg, s, 6) == HandlerSteps(cfg, e, 5);
    assert e.handler == Entered(op);
  }

  /** What is left to do once an operation has begun. */
  lemma EffectFromEntered(cfg: Config, s: State, op: Operation)
    ensures var t, effect := Enter(cfg, s, op), Effect(cfg, s.disk, s.files, op);
      && t == s.(files := t.files, handler := t.handler)
      && (t.handler.Checking? || t.handler.Stored? || t.handler.Leaving?)
      && (t.handler.Checking? ==> effect == Reindexed(cfg, s.disk, t.files, t.handler.uri))
      && (t.handler.Stored? ==>
          var u := t.handler.uri;
          u in t.files.docs && effect == Indexed(t.files, u, t.files.docs[u].ast))
      && (t.handler.Leaving? ==> effect == t.files)
  {
  }

  /** The small steps of an operation, taken without interruption, have the effect of the operation as a whole. */
  lemma {:induction false} Uninterrupted(cfg: Config, s: State, op: Operation)
    requires s.handler == Waiting(op)
    ensures HandlerSteps(cfg, s, 6) == s.(files := Effect(cfg, s.disk, s.files, op), handler := Idle, current := None)
  {
    var e := s.(handler := Entered(op));
    var t := Enter(cfg, e, op);
    UninterruptedEnter(cfg, s, op);
    EffectFromEntered(cfg, e, op);
    if t.handler.Checking? {
      UninterruptedCheck(cfg, t, t.handler.uri);
    } else if t.handler.Stored? {
      UninterruptedStored(cfg, t, t.handler.uri);
    } else {
      UninterruptedLeave(cfg, t, 4);
    }
  }

  function ScanSteps(cfg: Config, s: State, n: nat): State
    decreases n
  {
    if n == 0 || s.scan == Walking then s else ScanSteps(cfg, ScanNext(cfg, s), n - 1)
  }

  /** So have the steps of the scanner at a path it has accepted. */
  lemma {:induction false} VisitUninterrupted(cfg: Config, s: State, u: Uri)
    requires s.scan == Found(u)
    ensures ScanSteps(cfg, s, 5)
         == s.(files := AfterVisit(cfg, s.disk, s.files, u), scan := Walking, todo := s.todo - {u})
  {
    var a := ScanNext(cfg, s);
    var b := ScanNext(cfg, a);
    assert ScanSteps(cfg, s, 5) == ScanSteps(cfg, a, 4) == ScanSteps(cfg, b, 3);
    var c := ScanNext(cfg, b);
    assert ScanSteps(cfg, b, 3) == ScanSteps(cfg, c, 2);
    if c.scan != Walking {
      var d := ScanNext(cfg, c);
      assert ScanSteps(cfg, c, 2) == ScanSteps(cfg, d, 1);
      if d.scan != Walking { assert ScanSteps(cfg, d, 1) == ScanNext(cfg, d); }
    }
  }
}
