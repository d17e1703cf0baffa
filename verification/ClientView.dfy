/**
 What a client sees of its documents after any run: diagnostics and quick fixes in terms of the parser and
 of ShellCheck, and the messages that decide which text they are about.
 */
module ClientView {
  import opened Bytes
  import opened Positions
  import opened Syntax
  import opened SourceGraph
  import I = Index
  import opened Documents
  import opened Workspace
  import opened Server
  import opened ServerRuns

  // ----- diagnostics and quick fixes

  /** A signed 32-bit version as it is sent: a negative one from the top of the unsigned range. */
  function UnsignedVersion(v: int): int {
    if v < 0 then 0x1_0000_0000 + v else v
  }

  /** The last publication of an open document holds these diagnostics for its version, and these fixes are cached. */
  ghost predicate Shows(s: ServerState, u: Uri, diagnostics: seq<Diagnostic>, fixes: seq<Action>)
    requires u in s.files.docs
  {
    && LastPublication(s.reports, u).Some?
    && LastPublication(s.reports, u).value.diagnostics == diagnostics
    && (-0x8000_0000 <= s.files.docs[u].version < 0x8000_0000 ==>
          LastPublication(s.reports, u).value.version == UnsignedVersion(s.files.docs[u].version))
    && CachedActions(s.reports, u) == if fixes == [] then None else Some(fixes)
  }

  /** A parse error of the text last linted is shown alone, at its position, and there are no fixes. */
  lemma {:induction false} ParseErrorShownAlone(ss: Session, settings: Settings, events: seq<Event>, u: Uri)
    requires u in StateAfter(ss, settings, events).files.docs
    ensures u in Linted(ss, settings, events)
    ensures var s, text := StateAfter(ss, settings, events), Linted(ss, settings, events)[u];
      var err := ss.cfg.parse(text).err;
      && (err.Some? && err.value.SyntaxError? ==>
            var at := ToLsp(text, ss.enc, err.value.pos);
            Shows(s, u, [Diagnostic(Range(at, at), err.value.text)], []))
      && (err.Some? && err.value.OtherError? ==>
            Shows(s, u, [Diagnostic(Range(Position(0, 0), Position(0, 0)), err.value.message)], []))
  {
    OpenFilesReported(ss, settings, events, u);
  }

  /** Without one the findings of ShellCheck are shown, nothing if it failed, and nothing without its path. */
  lemma {:induction false} FindingsShown(ss: Session, settings: Settings, events: seq<Event>, u: Uri)
    requires u in StateAfter(ss, settings, events).files.docs
    ensures u in Linted(ss, settings, events)
    ensures var s, text := StateAfter(ss, settings, events), Linted(ss, settings, events)[u];
      var found := ss.lint(s.settings, u, text);
      ss.cfg.parse(text).err.None? ==>
        if s.settings.shellCheckPath == [] || found.None? then Shows(s, u, [], [])
        else Shows(s, u, found.value.diagnostics, found.value.actions)
  {
    OpenFilesReported(ss, settings, events, u);
  }

  /**
   A code-action request that accepts quick fixes is answered with the fixes of the text last linted, if
   that text has no parse error and ShellCheck has not failed; every other one with nothing.
   */
  lemma {:induction false} FixesAnswered(ss: Session, settings: Settings, events: seq<Event>, u: Uri, quickFix: bool)
    requires !StateAfter(ss, settings, events).shutdown
    ensures u in StateAfter(ss, settings, events).files.docs ==> u in Linted(ss, settings, events)
    ensures var s := StateAfter(ss, settings, events);
      var reply := Replied(s, CodeActions(u, quickFix));
      if quickFix && u in s.files.docs then
        var text := Linted(ss, settings, events)[u];
        var found := ss.lint(s.settings, u, text);
        var fixes := if ss.cfg.parse(text).err.None? && s.settings.shellCheckPath != [] && found.Some?
                     then found.value.actions else [];
        reply == Actions(fixes)
      else reply == Actions([])
  {
    if u in StateAfter(ss, settings, events).files.docs {
      OpenFilesReported(ss, settings, events, u);
    } else {
      ClosedFilesClear(ss, settings, events, u);
    }
  }

  // ----- which text

  /** The `k`-th event is a message that the server acts on. */
  predicate Acted(ss: Session, settings: Settings, events: seq<Event>, k: nat)
    requires k < |events|
  {
    events[k].Received? && !StateAfter(ss, settings, events[..k]).shutdown
  }

  /** The message carries a text for the document: the last of a change counts. */
  function TextSent(m: Message, u: Uri): Option<ByteString> {
    match m
    case Open(v, _, _, text) => if v == u then Some(text) else None
    case Change(v, _, texts) => if v == u && texts != [] then Some(texts[|texts| - 1]) else None
    case Save(v, saved) => if v == u then saved else None
    case _ => None
  }

  function VersionSent(m: Message, u: Uri): Option<int> {
    match m
    case Open(v, _, version, _) => if v == u then Some(version) else None
    case Change(v, version, texts) => if v == u && texts != [] then Some(version) else None
    case _ => None
  }

  function LanguageSent(m: Message, u: Uri): Option<ByteString> {
    if m.Open? && m.uri == u then Some(m.lang) else None
  }

  /** What the `k`-th event carries, if the server acts on it. */
  function Carried<T>(ss: Session, settings: Settings, events: seq<Event>,
                      sent: (ServerState, Message) -> Option<T>, k: nat): Option<T>
    requires k < |events|
  {
    if Acted(ss, settings, events, k) then sent(StateAfter(ss, settings, events[..k]), events[k].m) else None
  }

  /** The last acted-on message that carries something carries this. */
  ghost predicate LastCarried<T>(ss: Session, settings: Settings, events: seq<Event>,
                                 sent: (ServerState, Message) -> Option<T>, x: T) {
    exists k :: 0 <= k < |events| && Carried(ss, settings, events, sent, k) == Some(x)
      && forall j :: k < j < |events| ==> Carried(ss, settings, events, sent, j).None?
  }

  ghost predicate NothingCarried<T>(ss: Session, settings: Settings, events: seq<Event>,
                                    sent: (ServerState, Message) -> Option<T>) {
    forall k :: 0 <= k < |events| ==> Carried(ss, settings, events, sent, k).None?
  }

  lemma CarriedBefore<T>(ss: Session, settings: Settings, events: seq<Event>,
                         sent: (ServerState, Message) -> Option<T>, k: nat)
    requires k < |events| - 1
    ensures Carried(ss, settings, events[..|events| - 1], sent, k) == Carried(ss, settings, events, sent, k)
  {
    assert events[..|events| - 1][..k] == events[..k];
  }

  lemma CarriedOneMore<T>(ss: Session, settings: Settings, events: seq<Event>,
                          sent: (ServerState, Message) -> Option<T>, x: T)
    requires events != []
    requires var last := Carried(ss, settings, events, sent, |events| - 1);
      last == Some(x) || (last == None && LastCarried(ss, settings, events[..|events| - 1], sent, x))
    ensures LastCarried(ss, settings, events, sent, x)
  {
    var front := events[..|events| - 1];
    if Carried(ss, settings, events, sent, |events| - 1) == None {
      var k :| 0 <= k < |front| && Carried(ss, settings, front, sent, k) == Some(x)
        && forall j :: k < j < |front| ==> Carried(ss, settings, front, sent, j).None?;
      CarriedBefore(ss, settings, events, sent, k);
      forall j | k < j < |events| ensures Carried(ss, settings, events, sent, j).None? {
        if j < |front| { CarriedBefore(ss, settings, events, sent, j); }
      }
    }
  }

  /** An open document has language, version and text of the last open, change or save that carries one. */
  lemma {:induction false} DocumentIsLastSent(ss: Session, settings: Settings, events: seq<Event>, u: Uri)
    requires u in StateAfter(ss, settings, events).files.docs
    ensures var d := StateAfter(ss, settings, events).files.docs[u];
      && LastCarried(ss, settings, events, (s, m) => TextSent(m, u), d.text)
      && LastCarried(ss, settings, events, (s, m) => VersionSent(m, u), d.version)
      && LastCarried(ss, settings, events, (s, m) => LanguageSent(m, u), d.lang)
  {
    var front, e := events[..|events| - 1], events[|events| - 1];
    var s, d := StateAfter(ss, settings, front), StateAfter(ss, settings, events).files.docs[u];
    StoredOrKept(ss, s, e, u);
    if u in s.files.docs { DocumentIsLastSent(ss, settings, front, u); }
    CarriedOneMore(ss, settings, events, (s, m) => TextSent(m, u), d.text);
    CarriedOneMore(ss, settings, events, (s, m) => VersionSent(m, u), d.version);
    CarriedOneMore(ss, settings, events, (s, m) => LanguageSent(m, u), d.lang);
  }

  lemma StoredOrKept(ss: Session, s: ServerState, e: Event, u: Uri)
    requires u in EventHandled(ss, s, e).files.docs
    ensures var d := EventHandled(ss, s, e).files.docs[u];
      var acted := e.Received? && !s.shutdown;
      && (acted && TextSent(e.m, u).Some? ==> TextSent(e.m, u) == Some(d.text))
      && (acted && VersionSent(e.m, u).Some? ==> VersionSent(e.m, u) == Some(d.version))
      && (!acted || TextSent(e.m, u).None? ==> u in s.files.docs && s.files.docs[u].text == d.text)
      && (!acted || VersionSent(e.m, u).None? ==> u in s.files.docs && s.files.docs[u].version == d.version)
      && (acted && LanguageSent(e.m, u).Some? ==> LanguageSent(e.m, u) == Some(d.lang))
      && (!acted || LanguageSent(e.m, u).None? ==> u in s.files.docs && s.files.docs[u].lang == d.lang)
  {
    if e.Received? && e.m.Watched? { BurstKeepsDocs(ss.cfg, e.disk, s.files, e.m.events); }
  }

  /** The text that a message has linted: one it carries, or that of the document under new settings. */
  function LintedBy(s: ServerState, m: Message, u: Uri): Option<ByteString> {
    match m
    case Open(v, _, _, text) => if v == u then Some(text) else None
    case Change(v, _, texts) => if v == u && texts != [] then Some(texts[|texts| - 1]) else None
    case Configure(update) => if update.Some? && u in s.files.docs then Some(s.files.docs[u].text) else None
    case _ => None
  }

  /** The text that an open document was last linted with is that of the last open, change or configuration. */
  lemma {:induction false} LintedIsLast(ss: Session, settings: Settings, events: seq<Event>, u: Uri)
    requires u in StateAfter(ss, settings, events).files.docs
    ensures u in Linted(ss, settings, events)
    ensures LastCarried(ss, settings, events, (s, m) => LintedBy(s, m, u), Linted(ss, settings, events)[u])
  {
    OpenFilesReported(ss, settings, events, u);
    var front, e := events[..|events| - 1], events[|events| - 1];
    var s := StateAfter(ss, settings, front);
    if u in s.files.docs { LintedIsLast(ss, settings, front, u); }
    LintedOrKept(ss, s, Linted(ss, settings, front), e, u);
    CarriedOneMore(ss, settings, events, (s, m) => LintedBy(s, m, u), Linted(ss, settings, events)[u]);
  }

  lemma LintedOrKept(ss: Session, s: ServerState, linted: map<Uri, ByteString>, e: Event, u: Uri)
    requires u in EventHandled(ss, s, e).files.docs && (u in s.files.docs ==> u in linted)
    ensures var after := LintedNext(s, linted, e);
      && u in after
      && (e.Received? && !s.shutdown && LintedBy(s, e.m, u).Some? ==> LintedBy(s, e.m, u) == Some(after[u]))
      && (!e.Received? || s.shutdown || LintedBy(s, e.m, u).None? ==>
            u in s.files.docs && u in linted && linted[u] == after[u])
  {
    if e.Received? && e.m.Watched? { BurstKeepsDocs(ss.cfg, e.disk, s.files, e.m.events); }
  }

  // ----- which settings

  function Configured(s: ServerState, m: Message): Option<Settings> {
    if m.Configure? && m.update.Some? then Some(m.update.value(s.settings)) else None
  }

  /** The settings are what the last configuration made of those before it, or the first ones. */
  lemma {:induction false} SettingsAreLast(ss: Session, settings: Settings, events: seq<Event>)
    ensures var s := StateAfter(ss, settings, events);
      LastCarried(ss, settings, events, (s, m) => Configured(s, m), s.settings)
        || (s.settings == settings && NothingCarried(ss, settings, events, (s, m) => Configured(s, m)))
  {
    if events != [] {
      var front, sent := events[..|events| - 1], (s, m) => Configured(s, m);
      var s, t := StateAfter(ss, settings, front), StateAfter(ss, settings, events);
      SettingsAreLast(ss, settings, front);
      assert Carried(ss, settings, events, sent, |events| - 1) == Some(t.settings)
        || (Carried(ss, settings, events, sent, |events| - 1) == None && s.settings == t.settings);
      if Carried(ss, settings, events, sent, |events| - 1).Some? || LastCarried(ss, settings, front, sent, s.settings) {
        CarriedOneMore(ss, settings, events, sent, t.settings);
      } else {
        forall k | 0 <= k < |events| ensures Carried(ss, settings, events, sent, k).None? {
          if k < |front| { CarriedBefore(ss, settings, events, sent, k); }
        }
      }
    }
  }

  // ----- which documents

  function OpenedBy(m: Message, u: Uri): Option<bool> {
    match m
    case Open(v, _, _, _) => if v == u then Some(true) else None
    case Close(v) => if v == u then Some(false) else None
    case _ => None
  }

  /** A document is open exactly if the last of its opens and closes is an open. */
  lemma {:induction false} OpenIffOpenedLast(ss: Session, settings: Settings, events: seq<Event>, u: Uri)
    ensures u in StateAfter(ss, settings, events).files.docs <==>
      LastCarried(ss, settings, events, (s, m) => OpenedBy(m, u), true)
  {
    if events != [] {
      var front, e := events[..|events| - 1], events[|events| - 1];
      var s, sent := StateAfter(ss, settings, front), (s: ServerState, m: Message) => OpenedBy(m, u);
      OpenIffOpenedLast(ss, settings, front, u);
      if e.Received? && e.m.Watched? { BurstKeepsDocs(ss.cfg, e.disk, s.files, e.m.events); }
      LastCarriedIff(ss, settings, events, sent, true);
    }
  }

  lemma LastCarriedIff<T>(ss: Session, settings: Settings, events: seq<Event>,
                          sent: (ServerState, Message) -> Option<T>, x: T)
    requires events != []
    ensures var last := Carried(ss, settings, events, sent, |events| - 1);
      LastCarried(ss, settings, events, sent, x) <==>
        last == Some(x) || (last == None && LastCarried(ss, settings, events[..|events| - 1], sent, x))
  {
    var front, last := events[..|events| - 1], Carried(ss, settings, events, sent, |events| - 1);
    if LastCarried(ss, settings, events, sent, x) {
      var k :| 0 <= k < |events| && Carried(ss, settings, events, sent, k) == Some(x)
        && forall j :: k < j < |events| ==> Carried(ss, settings, events, sent, j).None?;
      if k < |front| {
        CarriedBefore(ss, settings, events, sent, k);
        forall j | k < j < |front| ensures Carried(ss, settings, front, sent, j).None? {
          CarriedBefore(ss, settings, events, sent, j);
        }
      }
    } else if last == Some(x) || (last == None && LastCarried(ss, settings, front, sent, x)) {
      CarriedOneMore(ss, settings, events, sent, x);
    }
  }

  /** Some message that the server acted on closes the document. */
  predicate WasClosed(ss: Session, settings: Settings, events: seq<Event>, u: Uri) {
    exists k :: 0 <= k < |events| && Acted(ss, settings, events, k) && events[k].m == Close(u)
  }

  /** A closed file is left with an empty publication exactly if a close of it was handled, else with none. */
  lemma {:induction false} ClosedFileCleared(ss: Session, settings: Settings, events: seq<Event>, u: Uri)
    requires u !in StateAfter(ss, settings, events).files.docs
    ensures var s := StateAfter(ss, settings, events);
      LastPublication(s.reports, u) == if WasClosed(ss, settings, events, u) then Some(Publication(0, [])) else None
  {
    ClosedFilesClear(ss, settings, events, u);
    ReportedIff(ss, settings, events, u);
  }

  lemma {:induction false} ReportedIff(ss: Session, settings: Settings, events: seq<Event>, u: Uri)
    ensures var s := StateAfter(ss, settings, events);
      u in s.reports <==> u in s.files.docs || WasClosed(ss, settings, events, u)
  {
    if events != [] {
      var front, e := events[..|events| - 1], events[|events| - 1];
      var s := StateAfter(ss, settings, front);
      ReportedIff(ss, settings, front, u);
      if e.Received? && e.m.Watched? { BurstKeepsDocs(ss.cfg, e.disk, s.files, e.m.events); }
      ClosedOneMore(ss, settings, events, u);
    }
  }

  lemma ClosedOneMore(ss: Session, settings: Settings, events: seq<Event>, u: Uri)
    requires events != []
    ensures var k := |events| - 1;
      WasClosed(ss, settings, events, u) <==>
        WasClosed(ss, settings, events[..k], u) || (Acted(ss, settings, events, k) && events[k].m == Close(u))
  {
    var front := events[..|events| - 1];
    forall j | 0 <= j < |front| ensures Acted(ss, settings, front, j) <==> Acted(ss, settings, events, j) {
      assert front[..j] == events[..j];
    }
    if WasClosed(ss, settings, front, u) {
      var j :| 0 <= j < |front| && Acted(ss, settings, front, j) && front[j].m == Close(u);
      assert events[j] == front[j];
    }
    if WasClosed(ss, settings, events, u) {
      var j :| 0 <= j < |events| && Acted(ss, settings, events, j) && events[j].m == Close(u);
      if j < |front| { assert front[j] == events[j]; }
    }
  }
}
