/**
 The server as it handles messages one at a time: the document and cache cases of
 internal/server/server.go with workspace.go, diagnostics.go, code_action.go and configuration.go.
 */
module Server {
  import opened Bytes
  import opened Positions
  import opened Syntax
  import opened SourceGraph
  import I = Index
  import opened Documents
  import opened Scanner
  import opened Workspace

  datatype Settings = Settings(shellCheckPath: ByteString, arguments: seq<ByteString>, indent: Option<nat>, scan: bool)

  datatype Diagnostic = Diagnostic(range: Range, message: ByteString)

  datatype Action = Action(title: ByteString)

  /** What ShellCheck reports for a text, rendered for the client. */
  datatype Findings = Findings(diagnostics: seq<Diagnostic>, actions: seq<Action>)

  /** ShellCheck under some settings, which may fail. */
  type Linter = (Settings, Uri, ByteString) -> Option<Findings>

  /** What does not change while a client is connected. */
  datatype Session = Session(cfg: Config, enc: Encoding, lint: Linter)

  datatype Publication = Publication(version: int, diagnostics: seq<Diagnostic>)

  /** The findings for one version of a document. */
  datatype Report = Report(version: int, findings: Findings)

  /** `reports`: what was last found, published and cached for each URI. */
  datatype ServerState = ServerState(files: Files, reports: map<Uri, Report>, settings: Settings, shutdown: bool)

  datatype Message =
    | Open(uri: Uri, lang: ByteString, version: int, text: ByteString)
    | Change(uri: Uri, version: int, texts: seq<ByteString>)
    | Save(uri: Uri, saved: Option<ByteString>)
    | Close(uri: Uri)
    | Configure(update: Option<Settings -> Settings>)
    | Watched(events: seq<FileEvent>)
    | Shutdown(sent: bool)                    // whether the reply to it could be sent
    | Exit
    | CodeActions(uri: Uri, quickFix: bool)   // whether the client accepts quick fixes
    | Query                                   // a request that only reads
    | Malformed                               // undecodable parameters, or an unknown method

  datatype Reply = Done | InvalidRequest | Actions(actions: seq<Action>)

  // ----- diagnostics

  /** `parseDiagnostics`. */
  function ParseDiagnostics(enc: Encoding, text: ByteString, err: Option<ParseError>): (r: seq<Diagnostic>)
    ensures r == [] <==> err.None?
  {
    match err
    case None => []
    case Some(SyntaxError(pos, message)) => [Diagnostic(Range(ToLsp(text, enc, pos), ToLsp(text, enc, pos)), message)]
    case Some(OtherError(message)) => [Diagnostic(Range(Position(0, 0), Position(0, 0)), message)]
  }

  /** ShellCheck is asked about a document. */
  predicate Lints(settings: Settings, d: Doc) {
    d.parseErr.None? && settings.shellCheckPath != []
  }

  /** What a document is to show. */
  function Checked(ss: Session, settings: Settings, u: Uri, d: Doc): Findings {
    if !Lints(settings, d) then Findings(ParseDiagnostics(ss.enc, d.text, d.parseErr), [])
    else match ss.lint(settings, u, d.text) case None => Findings([], []) case Some(r) => r
  }

  /** The conversion of a signed 32-bit version to an unsigned one. */
  function WireVersion(v: int): int {
    v % 0x1_0000_0000
  }

  function ReportOn(ss: Session, settings: Settings, u: Uri, d: Doc): Report {
    Report(WireVersion(d.version), Checked(ss, settings, u, d))
  }

  function ReportOnAll(ss: Session, settings: Settings, docs: map<Uri, Doc>): map<Uri, Report> {
    map u | u in docs :: ReportOn(ss, settings, u, docs[u])
  }

  /** The report of a file that is closed. */
  const CLOSED := Report(0, Findings([], []))

  /** The cached actions of a URI; an empty list is not cached. */
  function CachedActions(reports: map<Uri, Report>, u: Uri): Option<seq<Action>> {
    if u in reports && reports[u].findings.actions != [] then Some(reports[u].findings.actions) else None
  }

  /** The last publication of a URI. */
  function LastPublication(reports: map<Uri, Report>, u: Uri): Option<Publication> {
    if u in reports then Some(Publication(reports[u].version, reports[u].findings.diagnostics)) else None
  }

  // ----- messages

  /** An edited document is linted and published. */
  function Relinted(ss: Session, s: ServerState, files: Files, u: Uri): ServerState {
    if u in files.docs then
      s.(files := files, reports := s.reports[u := ReportOn(ss, s.settings, u, files.docs[u])])
    else
      s
  }

  function Handled(ss: Session, disk: Disk, s: ServerState, m: Message): ServerState {
    if s.shutdown && !m.Exit? then s
    else
      match m
      case Open(u, lang, version, text) => Relinted(ss, s, AfterOpen(ss.cfg, s.files, u, lang, version, text), u)
      case Change(u, version, texts) =>
        if texts == [] then s else Relinted(ss, s, AfterUpdate(ss.cfg, s.files, u, version, texts[|texts| - 1]), u)
      case Save(u, saved) => s.(files := AfterSave(ss.cfg, s.files, u, saved))
      case Close(u) => s.(files := AfterClose(ss.cfg, disk, s.files, u), reports := s.reports[u := CLOSED])
      case Configure(update) =>
        if update.None? then s
        else
          s.(settings := update.value(s.settings),
             reports := s.reports + ReportOnAll(ss, update.value(s.settings), s.files.docs))
      case Watched(events) => s.(files := AfterBurst(ss.cfg, disk, s.files, events))
      case Shutdown(sent) => s.(shutdown := sent)
      case _ => s
  }

  function Replied(s: ServerState, m: Message): Reply {
    if s.shutdown && !m.Exit? then InvalidRequest
    else if m.CodeActions? then
      Actions(if m.quickFix && CachedActions(s.reports, m.uri).Some? then CachedActions(s.reports, m.uri).value else [])
    else Done
  }

  /** The cache and the last publications, one URI at a time. */
  ghost predicate Reported(reports: map<Uri, Report>, actions: map<Uri, seq<Action>>, published: map<Uri, Publication>)
  {
    forall u :: I.Lookup(actions, u) == CachedActions(reports, u)
      && I.Lookup(published, u) == LastPublication(reports, u)
  }

  lemma ReportedOneMore(reports: map<Uri, Report>, actions: map<Uri, seq<Action>>, published: map<Uri, Publication>,
                        u: Uri, r: Report)
    requires Reported(reports, actions, published)
    ensures Reported(reports[u := r],
                     if r.findings.actions == [] then actions - {u} else actions[u := r.findings.actions],
                     published[u := Publication(r.version, r.findings.diagnostics)])
  {
    var after := if r.findings.actions == [] then actions - {u} else actions[u := r.findings.actions];
    var sent := published[u := Publication(r.version, r.findings.diagnostics)];
    forall v
      ensures I.Lookup(after, v) == CachedActions(reports[u := r], v)
        && I.Lookup(sent, v) == LastPublication(reports[u := r], v)
    {
      assert I.Lookup(actions, v) == CachedActions(reports, v) && I.Lookup(published, v) == LastPublication(reports, v);
    }
  }

  /** Every document that is not pending has been reported on. */
  ghost predicate ReportsMade(ss: Session, settings: Settings, docs: map<Uri, Doc>, pending: set<Uri>,
                              before: map<Uri, Report>, after: map<Uri, Report>) {
    forall u {:trigger I.Lookup(after, u)} :: I.Lookup(after, u) == MadeReport(ss, settings, docs, pending, before, u)
  }

  function MadeReport(ss: Session, settings: Settings, docs: map<Uri, Doc>, pending: set<Uri>, before: map<Uri, Report>,
                      u: Uri): Option<Report>
  {
    if u in docs && u !in pending then Some(ReportOn(ss, settings, u, docs[u])) else I.Lookup(before, u)
  }

  lemma NoReportMade(ss: Session, settings: Settings, docs: map<Uri, Doc>, pending: set<Uri>, reports: map<Uri, Report>)
    requires pending == docs.Keys
    ensures ReportsMade(ss, settings, docs, pending, reports, reports)
  {
  }

  lemma ReportMade(ss: Session, settings: Settings, docs: map<Uri, Doc>, pending: set<Uri>,
                   before: map<Uri, Report>, after: map<Uri, Report>, u: Uri)
    requires ReportsMade(ss, settings, docs, pending, before, after) && u in docs
    ensures ReportsMade(ss, settings, docs, pending - {u}, before, after[u := ReportOn(ss, settings, u, docs[u])])
  {
    var next := after[u := ReportOn(ss, settings, u, docs[u])];
    forall v ensures I.Lookup(next, v) == MadeReport(ss, settings, docs, pending - {u}, before, v) {
      assert I.Lookup(after, v) == MadeReport(ss, settings, docs, pending, before, v);
    }
  }

  lemma AllReportsMade(ss: Session, settings: Settings, docs: map<Uri, Doc>, before: map<Uri, Report>,
                       after: map<Uri, Report>)
    requires ReportsMade(ss, settings, docs, {}, before, after)
    ensures after == before + ReportOnAll(ss, settings, docs)
  {
    var all := before + ReportOnAll(ss, settings, docs);
    forall u ensures I.Lookup(after, u) == I.Lookup(all, u) {
      assert I.Lookup(after, u) == MadeReport(ss, settings, docs, {}, before, u);
    }
    SameLookups(after, all);
  }

  lemma SameLookups<V>(a: map<Uri, V>, b: map<Uri, V>)
    requires forall u :: I.Lookup(a, u) == I.Lookup(b, u)
    ensures a == b
  {
    forall u ensures u in a <==> u in b {
      assert I.Lookup(a, u) == I.Lookup(b, u);
    }
    forall u | u in a ensures a[u] == b[u] {
      assert I.Lookup(a, u) == I.Lookup(b, u);
    }
  }

  class BashServer {
    const ss: Session
    const docs: DocumentStore
    const index: I.Index
    var codeActions: map<Uri, seq<Action>>
    var published: map<Uri, Publication>
    var settings: Settings
    var shutdown: bool
    ghost var reports: map<Uri, Report>

    constructor (ss: Session, settings: Settings)
      ensures Valid() && this.ss == ss && fresh(docs) && fresh(index) && docs.docs == map[]
      ensures View() == ServerState(Files(map[], map[]), map[], settings, false)
    {
      this.ss := ss;
      docs := new DocumentStore(ss.cfg.parse);
      index := new I.Index();
      codeActions, published := map[], map[];
      this.settings := settings;
      shutdown := false;
      reports := map[];
    }

    ghost predicate Valid()
      reads this, docs, docs.docs.Values
    {
      docs.Valid() && docs.parse == ss.cfg.parse && Reported(reports, codeActions, published)
    }

    ghost function FilesView(): Files
      reads docs, index
    {
      Files(docs.contents, index.entries)
    }

    ghost function View(): ServerState
      reads this, docs, index
    {
      ServerState(FilesView(), reports, settings, shutdown)
    }

    // ----- workspace.go

    /** `openDocument`. */
    method OpenDocument(u: Uri, lang: ByteString, version: int, text: ByteString) returns (d: Document)
      requires Valid()
      modifies docs, index
      ensures Valid() && u in docs.docs && docs.docs[u] == d
      ensures FilesView() == AfterOpen(ss.cfg, old(FilesView()), u, lang, version, text)
    {
      d := docs.Open(u, lang, version, text);
      index.AddOrReplace(d.uri, d.ast);
    }

    /** `updateDocument`. */
    method UpdateDocument(u: Uri, version: int, text: ByteString) returns (d: Document?)
      requires Valid()
      modifies docs.docs.Values, docs`contents, index
      ensures Valid() && (d == null <==> u !in docs.docs) && (d != null ==> docs.docs[u] == d)
      ensures FilesView() == AfterUpdate(ss.cfg, old(FilesView()), u, version, text)
    {
      var ok := docs.Update(u, version, text);
      d := docs.Get(u);
      if ok {
        index.AddOrReplace(d.uri, d.ast);
      }
    }

    /** `saveDocument`. */
    method SaveDocument(u: Uri, text: Option<ByteString>) returns (ok: bool)
      requires Valid()
      modifies docs.docs.Values, docs`contents, index
      ensures Valid() && ok == (u in docs.docs)
      ensures FilesView() == AfterSave(ss.cfg, old(FilesView()), u, text)
    {
      ok := docs.Save(u, text);
      if ok {
        var d := docs.Get(u);
        index.AddOrReplace(d.uri, d.ast);
      }
    }

    /** The part that `closeDocument` and `refreshWorkspaceFile` share. */
    method IndexFromDisk(disk: Disk, u: Uri)
      modifies index
      ensures index.entries == I.Put(old(index.entries), u, DiskTree(ss.cfg, disk, u))
    {
      if !ss.cfg.inRoots(u) || !IsShellPath(ss.cfg.path(u), I.Lookup(disk, u)) {
        index.Remove(u);
        return;
      }
      if u !in disk {
        index.Remove(u);
        return;
      }
      index.AddOrReplace(u, ss.cfg.parse(disk[u]).ast);
    }

    /** `closeDocument`. */
    method CloseDocument(disk: Disk, u: Uri)
      requires Valid()
      modifies docs, index
      ensures Valid() && docs.docs == old(docs.docs) - {u}
      ensures FilesView() == AfterClose(ss.cfg, disk, old(FilesView()), u)
      ensures u in old(docs.contents) ==>
        index.entries == I.Put(old(index.entries), u,
                               if ScriptOnDisk(ss.cfg, disk, u) then ss.cfg.parse(disk[u]).ast else None)
      ensures u !in old(docs.contents) ==> index.entries == old(index.entries)
    {
      DiskTreeOfScript(ss.cfg, disk, u);
      var open := docs.Close(u);
      if !open {
        assert docs.docs == old(docs.docs);
        return;
      }
      IndexFromDisk(disk, u);
    }

    /** `indexWorkspacePath`. */
    method IndexWorkspacePath(disk: Disk, u: Uri)
      requires Valid()
      modifies index
      ensures FilesView() == AfterVisit(ss.cfg, disk, old(FilesView()), u)
    {
      var d := docs.Get(u);
      if d != null || u !in disk {
        return;
      }
      index.AddOrReplace(u, ss.cfg.parse(disk[u]).ast);
    }

    /** `refreshWorkspaceFile`. */
    method RefreshWorkspaceFile(disk: Disk, u: Uri)
      requires Valid()
      modifies index
      ensures FilesView() == AfterRefresh(ss.cfg, disk, old(FilesView()), u)
      ensures u !in docs.contents ==>
        index.entries == I.Put(old(index.entries), u,
                               if ScriptOnDisk(ss.cfg, disk, u) then ss.cfg.parse(disk[u]).ast else None)
    {
      DiskTreeOfScript(ss.cfg, disk, u);
      var d := docs.Get(u);
      if d != null {
        return;
      }
      IndexFromDisk(disk, u);
    }

    /** `removeWorkspaceFile`. */
    method RemoveWorkspaceFile(u: Uri)
      requires Valid()
      modifies index
      ensures FilesView() == AfterRemove(ss.cfg, old(FilesView()), u)
      ensures index.entries == if u !in docs.contents && ss.cfg.inRoots(u) then old(index.entries) - {u}
                               else old(index.entries)
    {
      var d := docs.Get(u);
      if d != null {
        return;
      }
      if ss.cfg.inRoots(u) {
        index.Remove(u);
      }
    }

    /** `handleDidChangeWatchedFiles`. */
    method HandleDidChangeWatchedFiles(disk: Disk, changes: seq<FileEvent>)
      requires Valid()
      modifies index
      ensures FilesView() == AfterBurst(ss.cfg, disk, old(FilesView()), changes)
    {
      for i := 0 to |changes|
        invariant FilesView() == AfterBurst(ss.cfg, disk, old(FilesView()), changes[..i])
      {
        assert changes[..i + 1][..i] == changes[..i];
        if changes[i].kind == Deleted {
          RemoveWorkspaceFile(changes[i].uri);
        } else {
          RefreshWorkspaceFile(disk, changes[i].uri);
        }
      }
      assert changes[..|changes|] == changes;
    }

    // ----- code_action.go, diagnostics.go, configuration.go

    /** `setCodeActions`. */
    method SetCodeActions(u: Uri, actions: seq<Action>)
      modifies this`codeActions
      ensures codeActions == if actions == [] then old(codeActions) - {u} else old(codeActions)[u := actions]
    {
      if |actions| == 0 {
        codeActions := codeActions - {u};
        return;
      }
      codeActions := codeActions[u := actions];
    }

    /** `codeActionsFor`. */
    method CodeActionsFor(u: Uri, quickFix: bool) returns (out: seq<Action>)
      ensures out == if quickFix && u in codeActions then codeActions[u] else []
    {
      if !quickFix {
        return [];
      }
      out := if u in codeActions then codeActions[u] else [];
    }

    /** `documentDiagnostics`. */
    method DocumentDiagnostics(d: Document) returns (diags: seq<Diagnostic>)
      modifies this`codeActions
      ensures var found := Checked(ss, settings, d.uri, d.View());
        && diags == found.diagnostics
        && codeActions == if found.actions == [] then old(codeActions) - {d.uri}
            else old(codeActions)[d.uri := found.actions]
    {
      diags := ParseDiagnostics(ss.enc, d.text, d.parseErr);
      if |diags| > 0 || settings.shellCheckPath == [] {
        SetCodeActions(d.uri, []);
        return;
      }
      var result := ss.lint(settings, d.uri, d.text);
      if result.None? {
        SetCodeActions(d.uri, []);
        return;
      }
      SetCodeActions(d.uri, result.value.actions);
      diags := diags + result.value.diagnostics;
    }

    /** `publishDiagnostics`. */
    method PublishDiagnostics(u: Uri, version: int, diags: seq<Diagnostic>)
      modifies this`published
      ensures published == old(published)[u := Publication(WireVersion(version), diags)]
    {
      published := published[u := Publication(WireVersion(version), diags)];
    }

    /** Lint and publish an open document. */
    method Relint(u: Uri)
      requires Valid() && u in docs.contents
      modifies this`codeActions, this`published, this`reports
      ensures Valid() && reports == old(reports)[u := ReportOn(ss, settings, u, docs.contents[u])]
    {
      var d := docs.docs[u];
      assert d.uri == u && d.View() == docs.contents[u];
      ghost var report := ReportOn(ss, settings, u, docs.contents[u]);
      ReportedOneMore(reports, codeActions, published, u, report);
      var diags := DocumentDiagnostics(d);
      PublishDiagnostics(u, d.version, diags);
      reports := reports[u := report];
    }

    /** `handleDidChangeConfiguration`; the documents are visited in any order. */
    method HandleDidChangeConfiguration(update: Option<Settings -> Settings>)
      requires Valid()
      modifies this`settings, this`codeActions, this`published, this`reports
      ensures Valid()
      ensures settings == if update.None? then old(settings) else update.value(old(settings))
      ensures reports == if update.None? then old(reports) else old(reports) + ReportOnAll(ss, settings, docs.contents)
    {
      if update.None? {
        return;
      }
      settings := update.value(settings);
      RelintAll();
    }

    /** The loop of `handleDidChangeConfiguration`. */
    method RelintAll()
      requires Valid()
      modifies this`codeActions, this`published, this`reports
      ensures Valid() && reports == old(reports) + ReportOnAll(ss, settings, docs.contents)
    {
      var pending := docs.docs.Keys;
      NoReportMade(ss, settings, docs.contents, pending, reports);
      while pending != {}
        invariant Valid() && pending <= docs.docs.Keys
        invariant ReportsMade(ss, settings, docs.contents, pending, old(reports), reports)
        decreases |pending|
      {
        var u :| u in pending;
        ReportMade(ss, settings, docs.contents, pending, old(reports), reports, u);
        Relint(u);
        pending := pending - {u};
      }
      AllReportsMade(ss, settings, docs.contents, old(reports), reports);
    }

    // ----- server.go

    /** The didOpen case. */
    method HandleOpen(u: Uri, lang: ByteString, version: int, text: ByteString)
      requires Valid()
      modifies this`codeActions, this`published, this`reports, docs, index
      ensures Valid()
      ensures View() == Relinted(ss, old(View()), AfterOpen(ss.cfg, old(FilesView()), u, lang, version, text), u)
    {
      var _ := OpenDocument(u, lang, version, text);
      Relint(u);
    }

    /** The didChange case. */
    method HandleChange(u: Uri, version: int, texts: seq<ByteString>)
      requires Valid()
      modifies this`codeActions, this`published, this`reports, docs.docs.Values, docs`contents, index
      ensures Valid()
      ensures View() == if texts == [] then old(View())
                        else Relinted(ss, old(View()),
                                      AfterUpdate(ss.cfg, old(FilesView()), u, version, texts[|texts| - 1]), u)
    {
      if |texts| == 0 {
        return;
      }
      var d := UpdateDocument(u, version, texts[|texts| - 1]);
      if d == null {
        return;
      }
      Relint(u);
    }

    /** The didClose case. */
    method HandleClose(disk: Disk, u: Uri)
      requires Valid()
      modifies this`codeActions, this`published, this`reports, docs, index
      ensures Valid() && FilesView() == AfterClose(ss.cfg, disk, old(FilesView()), u)
      ensures reports == old(reports)[u := CLOSED]
    {
      ReportedOneMore(reports, codeActions, published, u, CLOSED);
      CloseDocument(disk, u);
      SetCodeActions(u, []);
      PublishDiagnostics(u, 0, []);
      reports := reports[u := CLOSED];
    }

    /** The cases of `handle` for one document. */
    method HandleDocument(disk: Disk, m: Message)
      requires Valid() && !shutdown && (m.Open? || m.Change? || m.Save? || m.Close?)
      modifies this`codeActions, this`published, this`reports, docs, docs.docs.Values, index
      ensures Valid() && View() == Handled(ss, disk, old(View()), m)
    {
      match m {
        case Open(u, lang, version, text) =>
          HandleOpen(u, lang, version, text);
        case Change(u, version, texts) =>
          HandleChange(u, version, texts);
        case Save(u, text) =>
          var _ := SaveDocument(u, text);
        case Close(u) =>
          HandleClose(disk, u);
      }
    }

    /** `handle`. */
    method Handle(disk: Disk, m: Message) returns (reply: Reply)
      requires Valid()
      modifies this, docs, docs.docs.Values, index
      ensures Valid() && View() == Handled(ss, disk, old(View()), m)
      ensures reply == Replied(old(View()), m)
    {
      if shutdown && !m.Exit? {
        return InvalidRequest;
      }
      reply := Done;
      match m {
        case Configure(update) =>
          HandleDidChangeConfiguration(update);
        case Watched(events) =>
          HandleDidChangeWatchedFiles(disk, events);
        case Shutdown(sent) =>
          if sent {
            shutdown := true;
          }
        case CodeActions(u, quickFix) =>
          assert I.Lookup(codeActions, u) == CachedActions(reports, u);
          var out := CodeActionsFor(u, quickFix);
          reply := Actions(out);
        case Exit =>
        case Query =>
        case Malformed =>
        case _ =>
          HandleDocument(disk, m);
      }
    }
  }
}
