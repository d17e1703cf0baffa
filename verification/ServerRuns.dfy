/** What is published and cached over whole runs of the server, and what shutdown stops. */
module ServerRuns {
  import opened Bytes
  import opened Syntax
  import opened SourceGraph
  import I = Index
  import opened Documents
  import opened Workspace
  import opened Server

  /** A message with the disk it finds, or a visit of the background scanner. */
  datatype Event = Received(m: Message, disk: Disk) | Visited(uri: Uri, disk: Disk)

  function EventHandled(ss: Session, s: ServerState, e: Event): ServerState {
    match e
    case Received(m, disk) => Handled(ss, disk, s, m)
    case Visited(u, disk) => s.(files := AfterVisit(ss.cfg, disk, s.files, u))
  }

  function StateAfter(ss: Session, settings: Settings, events: seq<Event>): ServerState {
    if events == [] then ServerState(Files(map[], map[]), map[], settings, false)
    else EventHandled(ss, StateAfter(ss, settings, events[..|events| - 1]), events[|events| - 1])
  }

  /** The text that each open document was last linted with, after one more event. */
  function LintedNext(s: ServerState, linted: map<Uri, ByteString>, e: Event): map<Uri, ByteString> {
    if e.Visited? || s.shutdown then linted
    else
      match e.m
      case Open(u, _, _, text) => linted[u := text]
      case Change(u, _, texts) => if texts == [] || u !in s.files.docs then linted else linted[u := texts[|texts| - 1]]
      case Close(u) => linted - {u}
      case Configure(update) => if update.None? then linted else map u | u in s.files.docs :: s.files.docs[u].text
      case _ => linted
  }

  function Linted(ss: Session, settings: Settings, events: seq<Event>): map<Uri, ByteString> {
    if events == [] then map[]
    else
      var front := events[..|events| - 1];
      LintedNext(StateAfter(ss, settings, front), Linted(ss, settings, front), events[|events| - 1])
  }

  /** What linting a text finds, whatever document it is the text of. */
  function CheckedText(ss: Session, settings: Settings, u: Uri, text: ByteString): Findings {
    Checked(ss, settings, u, Parsed(ss.cfg.parse, [], 0, text))
  }

  predicate LintsText(ss: Session, settings: Settings, text: ByteString) {
    Lints(settings, Parsed(ss.cfg.parse, [], 0, text))
  }

  /** The report of a URI is about the text it was last linted with; a closed file has an empty report or none. */
  predicate ReportCurrent(ss: Session, s: ServerState, linted: map<Uri, ByteString>, u: Uri) {
    if u in s.files.docs then
      && u in linted && u in s.reports
      && s.reports[u] == Report(WireVersion(s.files.docs[u].version), CheckedText(ss, s.settings, u, linted[u]))
    else u !in linted && (u in s.reports ==> s.reports[u] == CLOSED)
  }

  ghost predicate RunInvariant(ss: Session, s: ServerState, linted: map<Uri, ByteString>) {
    BuffersIndexed(ss.cfg, s.files) && forall u :: ReportCurrent(ss, s, linted, u)
  }

  lemma CheckedIsText(ss: Session, settings: Settings, u: Uri, d: Doc)
    requires Paired(ss.cfg.parse, d)
    ensures Checked(ss, settings, u, d) == CheckedText(ss, settings, u, d.text)
    ensures Lints(settings, d) <==> LintsText(ss, settings, d.text)
  {
  }

  lemma {:induction false} BurstKeepsInvariant(ss: Session, s: ServerState, linted: map<Uri, ByteString>, disk: Disk,
                                               events: seq<FileEvent>)
    requires RunInvariant(ss, s, linted)
    ensures RunInvariant(ss, s.(files := AfterBurst(ss.cfg, disk, s.files, events)), linted)
  {
    var t := s.(files := AfterBurst(ss.cfg, disk, s.files, events));
    forall u | u in s.files.docs
      ensures t.files.docs == s.files.docs && I.Lookup(t.files.index, u) == s.files.docs[u].ast
    {
      BurstKeepsBuffers(ss.cfg, disk, s.files, events, u);
    }
    BurstKeepsDocs(ss.cfg, disk, s.files, events);
    forall u ensures ReportCurrent(ss, t, linted, u) {
      assert ReportCurrent(ss, s, linted, u);
    }
  }

  /** Messages that edit one document. */
  lemma EditKeepsReports(ss: Session, disk: Disk, s: ServerState, linted: map<Uri, ByteString>, m: Message, u: Uri)
    requires ReportCurrent(ss, s, linted, u) && BuffersIndexed(ss.cfg, s.files)
    requires m.Open? || m.Change? || m.Save? || m.Close?
    ensures ReportCurrent(ss, Handled(ss, disk, s, m), LintedNext(s, linted, Received(m, disk)), u)
  {
  }

  lemma ConfigureKeepsReports(ss: Session, disk: Disk, s: ServerState, linted: map<Uri, ByteString>, m: Message, u: Uri)
    requires ReportCurrent(ss, s, linted, u) && BuffersIndexed(ss.cfg, s.files) && m.Configure?
    ensures ReportCurrent(ss, Handled(ss, disk, s, m), LintedNext(s, linted, Received(m, disk)), u)
  {
    if m.update.Some? && u in s.files.docs { CheckedIsText(ss, m.update.value(s.settings), u, s.files.docs[u]); }
  }

  lemma MessageKeepsInvariant(ss: Session, disk: Disk, s: ServerState, linted: map<Uri, ByteString>, m: Message)
    requires RunInvariant(ss, s, linted)
    ensures RunInvariant(ss, Handled(ss, disk, s, m), LintedNext(s, linted, Received(m, disk)))
  {
    if m.Watched? {
      BurstKeepsInvariant(ss, s, linted, disk, m.events);
    } else {
      MessageKeepsBuffers(ss, disk, s, m);
      forall u ensures ReportCurrent(ss, Handled(ss, disk, s, m), LintedNext(s, linted, Received(m, disk)), u) {
        assert ReportCurrent(ss, s, linted, u);
        MessageKeepsReport(ss, disk, s, linted, m, u);
      }
    }
  }

  lemma MessageKeepsBuffers(ss: Session, disk: Disk, s: ServerState, m: Message)
    requires BuffersIndexed(ss.cfg, s.files) && !m.Watched?
    ensures BuffersIndexed(ss.cfg, Handled(ss, disk, s, m).files)
  {
  }

  lemma MessageKeepsReport(ss: Session, disk: Disk, s: ServerState, linted: map<Uri, ByteString>, m: Message, u: Uri)
    requires ReportCurrent(ss, s, linted, u) && BuffersIndexed(ss.cfg, s.files) && !m.Watched?
    ensures ReportCurrent(ss, Handled(ss, disk, s, m), LintedNext(s, linted, Received(m, disk)), u)
  {
    if m.Open? || m.Change? || m.Save? || m.Close? {
      EditKeepsReports(ss, disk, s, linted, m, u);
    } else if m.Configure? {
      ConfigureKeepsReports(ss, disk, s, linted, m, u);
    }
  }

  lemma {:induction false} RunKeepsInvariant(ss: Session, settings: Settings, events: seq<Event>)
    ensures RunInvariant(ss, StateAfter(ss, settings, events), Linted(ss, settings, events))
  {
    if events != [] {
      var front, e := events[..|events| - 1], events[|events| - 1];
      var s, linted := StateAfter(ss, settings, front), Linted(ss, settings, front);
      RunKeepsInvariant(ss, settings, front);
      if e.Received? {
        MessageKeepsInvariant(ss, e.disk, s, linted, e.m);
      } else {
        forall u ensures ReportCurrent(ss, EventHandled(ss, s, e), linted, u) {
          assert ReportCurrent(ss, s, linted, u);
        }
      }
    }
  }

  // ----- what clients see

  /**
   After any run, a closed file has no cached code actions, and if anything was ever published for it, the
   last publication is empty.
   */
  lemma {:induction false} ClosedFilesClear(ss: Session, settings: Settings, events: seq<Event>, u: Uri)
    requires u !in StateAfter(ss, settings, events).files.docs
    ensures var s := StateAfter(ss, settings, events);
      && CachedActions(s.reports, u) == None
      && (LastPublication(s.reports, u).Some? ==> LastPublication(s.reports, u) == Some(Publication(0, [])))
  {
    RunKeepsInvariant(ss, settings, events);
    assert ReportCurrent(ss, StateAfter(ss, settings, events), Linted(ss, settings, events), u);
  }

  /**
   After any run, what was published and cached for an open document is what linting the text it was
   last linted with finds under the current settings, for the document's current version.
   */
  lemma {:induction false} OpenFilesReported(ss: Session, settings: Settings, events: seq<Event>, u: Uri)
    requires u in StateAfter(ss, settings, events).files.docs
    ensures var s, linted := StateAfter(ss, settings, events), Linted(ss, settings, events);
      && u in linted
      && var found := CheckedText(ss, s.settings, u, linted[u]);
      && LastPublication(s.reports, u) == Some(Publication(WireVersion(s.files.docs[u].version), found.diagnostics))
      && CachedActions(s.reports, u) == if found.actions == [] then None else Some(found.actions)
  {
    RunKeepsInvariant(ss, settings, events);
    assert ReportCurrent(ss, StateAfter(ss, settings, events), Linted(ss, settings, events), u);
  }

  /** No save carries a text for the document. */
  predicate NoTextSaved(events: seq<Event>, u: Uri) {
    forall i :: 0 <= i < |events| && events[i].Received? && events[i].m.Save? && events[i].m.uri == u ==>
      events[i].m.saved == None
  }

  lemma LintedTextStep(ss: Session, s: ServerState, linted: map<Uri, ByteString>, e: Event, u: Uri)
    requires e.Received? && e.m.Save? && e.m.uri == u ==> e.m.saved == None
    requires I.Lookup(linted, u) == if u in s.files.docs then Some(s.files.docs[u].text) else None
    ensures var docs := EventHandled(ss, s, e).files.docs;
      I.Lookup(LintedNext(s, linted, e), u) == if u in docs then Some(docs[u].text) else None
  {
    if e.Received? && e.m.Watched? { BurstKeepsDocs(ss.cfg, e.disk, s.files, e.m.events); }
  }

  lemma {:induction false} LintedIsText(ss: Session, settings: Settings, events: seq<Event>, u: Uri)
    requires NoTextSaved(events, u)
    ensures I.Lookup(Linted(ss, settings, events), u)
         == var docs := StateAfter(ss, settings, events).files.docs; if u in docs then Some(docs[u].text) else None
  {
    if events != [] {
      var front, e := events[..|events| - 1], events[|events| - 1];
      LintedIsText(ss, settings, front, u);
      assert e.Received? && e.m.Save? && e.m.uri == u ==> e.m.saved == None;
      LintedTextStep(ss, StateAfter(ss, settings, front), Linted(ss, settings, front), e, u);
    }
  }

  /** In a run without a text-bearing save of the document, what is cached and published is that of its current text. */
  lemma {:induction false} ReportsCurrentWithoutSavedText(ss: Session, settings: Settings, events: seq<Event>, u: Uri)
    requires NoTextSaved(events, u) && u in StateAfter(ss, settings, events).files.docs
    ensures var s := StateAfter(ss, settings, events);
      var found := Checked(ss, s.settings, u, s.files.docs[u]);
      && LastPublication(s.reports, u) == Some(Publication(WireVersion(s.files.docs[u].version), found.diagnostics))
      && CachedActions(s.reports, u) == if found.actions == [] then None else Some(found.actions)
  {
    RunKeepsInvariant(ss, settings, events);
    LintedIsText(ss, settings, events, u);
    OpenFilesReported(ss, settings, events, u);
    var s := StateAfter(ss, settings, events);
    CheckedIsText(ss, s.settings, u, s.files.docs[u]);
  }

  // ----- exactly when the cache is current

  /** The cached code actions of an open document are those of its current text. */
  predicate ActionsCurrent(ss: Session, s: ServerState, u: Uri)
    requires u in s.files.docs
  {
    var found := Checked(ss, s.settings, u, s.files.docs[u]);
    CachedActions(s.reports, u) == if found.actions == [] then None else Some(found.actions)
  }

  /** ShellCheck decides neither documents nor settings nor which texts are linted. */
  lemma {:induction false} LinterIrrelevant(ss: Session, lint: Linter, settings: Settings, events: seq<Event>)
    ensures var s, t := StateAfter(ss, settings, events), StateAfter(ss.(lint := lint), settings, events);
      s.files == t.files && s.settings == t.settings && s.shutdown == t.shutdown
    ensures Linted(ss, settings, events) == Linted(ss.(lint := lint), settings, events)
  {
    if events != [] {
      var front := events[..|events| - 1];
      LinterIrrelevant(ss, lint, settings, front);
      SameButReports(ss, lint, StateAfter(ss, settings, front), StateAfter(ss.(lint := lint), settings, front),
                     events[|events| - 1]);
    }
  }

  lemma SameButReports(ss: Session, lint: Linter, s: ServerState, t: ServerState, e: Event)
    requires s.files == t.files && s.settings == t.settings && s.shutdown == t.shutdown
    ensures var v, w := EventHandled(ss, s, e), EventHandled(ss.(lint := lint), t, e);
      v.files == w.files && v.settings == w.settings && v.shutdown == w.shutdown
    ensures forall linted :: LintedNext(s, linted, e) == LintedNext(t, linted, e)
  {
  }

  /** A linter that finds something in one text only. */
  function OnlyIn(text: ByteString): Linter {
    (settings, u, t) => Some(Findings([], if t == text then [Action([])] else []))
  }

  /**
   The exact condition under which the cached code actions of an open document are those of its
   current text, whatever ShellCheck finds: the text is the one it was last linted with, or neither
   text is given to ShellCheck.
   */
  lemma {:induction false} ActionsCurrentIff(ss: Session, settings: Settings, events: seq<Event>, u: Uri)
    requires u in StateAfter(ss, settings, events).files.docs
    ensures u in Linted(ss, settings, events)
    ensures forall lint :: u in StateAfter(ss.(lint := lint), settings, events).files.docs
    ensures var s := StateAfter(ss, settings, events);
      var text, linted := s.files.docs[u].text, Linted(ss, settings, events)[u];
      (forall lint :: ActionsCurrent(ss.(lint := lint), StateAfter(ss.(lint := lint), settings, events), u)) <==>
        (linted == text || (!LintsText(ss, s.settings, linted) && !LintsText(ss, s.settings, text)))
  {
    var s := StateAfter(ss, settings, events);
    OpenFilesReported(ss, settings, events, u);
    forall lint ensures u in StateAfter(ss.(lint := lint), settings, events).files.docs {
      LinterIrrelevant(ss, lint, settings, events);
    }
    var text, linted := s.files.docs[u].text, Linted(ss, settings, events)[u];
    forall lint ensures ActionsCurrent(ss.(lint := lint), StateAfter(ss.(lint := lint), settings, events), u) <==>
      CheckedText(ss.(lint := lint), s.settings, u, linted).actions
          == CheckedText(ss.(lint := lint), s.settings, u, text).actions
    {
      CurrentMeansSameFindings(ss, lint, settings, events, u);
    }
    if linted != text {
      FoundInOneOnly(ss, s.settings, u, linted, text);
      FoundInOneOnly(ss, s.settings, u, text, linted);
      var one, other := ss.(lint := OnlyIn(text)), ss.(lint := OnlyIn(linted));
      assert ActionsCurrent(one, StateAfter(one, settings, events), u) <==> !LintsText(ss, s.settings, text);
      assert ActionsCurrent(other, StateAfter(other, settings, events), u) <==> !LintsText(ss, s.settings, linted);
    }
  }

  lemma FoundInOneOnly(ss: Session, settings: Settings, u: Uri, text: ByteString, other: ByteString)
    requires text != other
    ensures var one := ss.(lint := OnlyIn(text));
      CheckedText(one, settings, u, text).actions == CheckedText(one, settings, u, other).actions <==>
        !LintsText(ss, settings, text)
  {
  }

  lemma {:induction false} CurrentMeansSameFindings(ss: Session, lint: Linter, settings: Settings, events: seq<Event>,
                                                    u: Uri)
    requires u in StateAfter(ss, settings, events).files.docs
    ensures u in Linted(ss, settings, events) && u in StateAfter(ss.(lint := lint), settings, events).files.docs
    ensures var s, with := StateAfter(ss, settings, events), ss.(lint := lint);
      ActionsCurrent(with, StateAfter(with, settings, events), u) <==>
        CheckedText(with, s.settings, u, Linted(ss, settings, events)[u]).actions
            == CheckedText(with, s.settings, u, s.files.docs[u].text).actions
  {
    var with := ss.(lint := lint);
    LinterIrrelevant(ss, lint, settings, events);
    OpenFilesReported(with, settings, events, u);
    RunKeepsInvariant(with, settings, events);
    CheckedIsText(with, StateAfter(ss, settings, events).settings, u, StateAfter(ss, settings, events).files.docs[u]);
  }

  /** Saving a document with a new text leaves the cached actions of the old one. */
  lemma {:induction false} SavedTextNotLinted(ss: Session, settings: Settings, u: Uri, before: ByteString,
                                              after: ByteString, disk: Disk)
    requires before != after && LintsText(ss, settings, before)
    ensures var events := [Received(Open(u, [], 1, before), disk), Received(Save(u, Some(after)), disk)];
      && u in StateAfter(ss, settings, events).files.docs
      && StateAfter(ss, settings, events).files.docs[u].text == after
      && exists lint :: u in StateAfter(ss.(lint := lint), settings, events).files.docs
           && !ActionsCurrent(ss.(lint := lint), StateAfter(ss.(lint := lint), settings, events), u)
  {
    var events := [Received(Open(u, [], 1, before), disk), Received(Save(u, Some(after)), disk)];
    assert events[..1] == [events[0]] && events[..1][..0] == [];
    assert StateAfter(ss, settings, []).settings == settings;
    ActionsCurrentIff(ss, settings, events, u);
    assert Linted(ss, settings, events)[u] == before;
  }

  // ----- shutdown

  /** The gate is closed exactly when a shutdown request has been answered. */
  lemma {:induction false} ShutdownIffAnswered(ss: Session, settings: Settings, events: seq<Event>)
    ensures StateAfter(ss, settings, events).shutdown <==>
      exists i :: 0 <= i < |events| && events[i].Received? && events[i].m == Shutdown(true)
  {
    if events != [] {
      ShutdownIffAnswered(ss, settings, events[..|events| - 1]);
    }
  }

  /** Once it is, no message changes documents, reports or settings, and every message but exit is rejected. */
  lemma {:induction false} NothingAfterShutdown(ss: Session, settings: Settings, events: seq<Event>, k: nat)
    requires k <= |events| && StateAfter(ss, settings, events[..k]).shutdown
    ensures var s, t := StateAfter(ss, settings, events[..k]), StateAfter(ss, settings, events);
      t.shutdown && t.files.docs == s.files.docs && t.reports == s.reports && t.settings == s.settings
    ensures forall m :: Replied(StateAfter(ss, settings, events), m) == InvalidRequest <==> !m.Exit?
    decreases |events|
  {
    if k < |events| {
      var front := events[..|events| - 1];
      assert front[..k] == events[..k];
      NothingAfterShutdown(ss, settings, front, k);
    } else {
      assert events[..k] == events;
    }
  }
}
