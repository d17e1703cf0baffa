/**
 A run in which a file that stops being a shell script stays indexed.  The scanner accepts a file
 without an extension by its shebang; before the scanner takes the mutex the file loses its shebang
 and the handler removes it; then the scanner reads it and indexes it, with no event left to undo that.
 */
module ShebangRace {
  import opened Bytes
  import opened Syntax
  import opened SourceGraph
  import opened Index
  import opened Documents
  import opened Scanner
  import opened Workspace
  import opened Coherence

  /** A run that ends in `s`. */
  ghost predicate Reachable(cfg: Config, s: State) {
    exists trace :: IsRun(cfg, trace) && trace[|trace| - 1] == s
  }

  lemma Started(cfg: Config, disk: Disk)
    ensures Reachable(cfg, State(disk, Files(map[], map[]), Idle, NotStarted, {}, [], None))
  {
    var s := State(disk, Files(map[], map[]), Idle, NotStarted, {}, [], None);
    assert IsRun(cfg, [s]) && [s][|[s]| - 1] == s;
  }

  lemma Taken(cfg: Config, s: State, step: Step) returns (t: State)
    requires Reachable(cfg, s) && Enabled(cfg, s, step)
    ensures t == Next(cfg, s, step) && Reachable(cfg, t)
  {
    t := Next(cfg, s, step);
    var trace :| IsRun(cfg, trace) && trace[|trace| - 1] == s;
    var longer := trace + [t];
    forall i | 0 <= i < |longer| - 1 ensures Moves(cfg, longer[i], longer[i + 1]) {
      if i < |trace| - 1 {
        assert Moves(cfg, trace[i], trace[i + 1]);
      } else {
        assert longer[i] == s && longer[i + 1] == t;
      }
    }
    assert IsRun(cfg, longer) && longer[|longer| - 1] == t;
  }

  /** The scanner has accepted a script, which then loses its shebang. */
  lemma AcceptedThenEdited(cfg: Config, u: Uri, script: ByteString, plain: ByteString) returns (s: State)
    requires Listed(cfg, u) && IsShellPath(cfg.path(u), Some(script))
    ensures Reachable(cfg, s)
    ensures s == State(map[u := plain], Files(map[], map[]), Idle, Found(u), s.todo, [FileEvent(u, Changed)], None)
  {
    Started(cfg, map[u := script]);
    s := State(map[u := script], Files(map[], map[]), Idle, NotStarted, {}, [], None);
    s := Taken(cfg, s, StartScan);
    s := Taken(cfg, s, Look(u));
    s := Taken(cfg, s, WriteDisk(u, plain));
    assert map[u := script][u := plain] == map[u := plain];
    assert [] + [FileEvent(u, Changed)] == [FileEvent(u, Changed)];
  }

  /** The handler finds no shell script and removes the entry. */
  lemma EventHandled(cfg: Config, u: Uri, plain: ByteString, before: State) returns (s: State)
    requires Reachable(cfg, before)
    requires before
        == State(map[u := plain], Files(map[], map[]), Idle, Found(u), before.todo, [FileEvent(u, Changed)], None)
    requires cfg.inRoots(u) && !IsShellPath(cfg.path(u), Some(plain))
    ensures Reachable(cfg, s) && s == State(map[u := plain], Files(map[], map[]), Idle, Found(u), before.todo, [], None)
  {
    s := Taken(cfg, before, TakeEvent);
    s := Taken(cfg, s, HandlerStep);
    s := Taken(cfg, s, HandlerStep);
    s := Taken(cfg, s, HandlerStep);
    s := Taken(cfg, s, HandlerStep);
    assert s.files == Files(map[], map[]);
  }

  /** The scanner, which has not looked again, indexes what it reads. */
  lemma Visited(cfg: Config, u: Uri, plain: ByteString, before: State) returns (s: State)
    requires Reachable(cfg, before)
    requires before == State(map[u := plain], Files(map[], map[]), Idle, Found(u), before.todo, [], None)
    ensures Reachable(cfg, s) && HandlerOutside(s) && s.queue == [] && s.current == None
    ensures s.disk == map[u := plain] && s.files == Files(map[], Put(map[], u, Tree(cfg, plain)))
  {
    s := Taken(cfg, before, ScanStep);
    s := Taken(cfg, s, ScanStep);
    s := Taken(cfg, s, ScanStep);
    s := Taken(cfg, s, ScanStep);
    s := Taken(cfg, s, ScanStep);
  }

  /** The file is closed, indexed and no shell script, although nothing of it is pending. */
  ghost predicate Stale(cfg: Config, s: State, u: Uri) {
    && Reachable(cfg, s) && HandlerOutside(s) && Settled(s, u)
    && u !in s.files.docs && u in s.files.index && !ScriptOnDisk(cfg, s.disk, u)
  }

  lemma ShebangLost(cfg: Config, u: Uri, script: ByteString, plain: ByteString)
    requires Listed(cfg, u) && IsShellPath(cfg.path(u), Some(script)) && !IsShellPath(cfg.path(u), Some(plain))
    requires Tree(cfg, plain).Some?
    ensures exists s :: Stale(cfg, s, u)
  {
    var s := AcceptedThenEdited(cfg, u, script, plain);
    s := EventHandled(cfg, u, plain, s);
    s := Visited(cfg, u, plain, s);
    ShellPathIff(cfg.path(u), Some(plain));
    assert Settled(s, u);
    assert Stale(cfg, s, u);
  }

  lemma NeverStale(cfg: Config, s: State, u: Uri)
    requires HasExtension(cfg.path(u)) || cfg.skipped(u)
    ensures !Stale(cfg, s, u)
  {
    if Stale(cfg, s, u) {
      var trace :| IsRun(cfg, trace) && trace[|trace| - 1] == s;
      IndexedEntriesCurrent(cfg, trace, |trace| - 1, u);
      if cfg.skipped(u) {
        SkippedEntriesAreScripts(cfg, trace, |trace| - 1, u);
      } else {
        ShellPathIff(cfg.path(u), Lookup(s.disk, u));
        if !EndsAsShell(cfg.path(u)) { OtherFilesNotIndexed(cfg, trace, |trace| - 1, u); }
      }
    }
  }

  /**
   The exact condition under which, in every run, a closed and settled file of the workspace is
   indexed only while it is a shell script: its path has an extension, or no scan visits it.
   */
  lemma IndexedOnlyScriptsIff(cfg: Config, u: Uri)
    requires cfg.inRoots(u) && Tree(cfg, []).Some?
    ensures (forall s :: !Stale(cfg, s, u)) <==> HasExtension(cfg.path(u)) || cfg.skipped(u)
  {
    if HasExtension(cfg.path(u)) || cfg.skipped(u) {
      forall s ensures !Stale(cfg, s, u) { NeverStale(cfg, s, u); }
    } else {
      var script: ByteString := [35, 33, 115, 104];
      ShortestShebang(script);
      ExtensionIff(cfg.path(u));
      assert ToLower(Ext(cfg.path(u))) == [];
      ShebangLost(cfg, u, script, []);
    }
  }

  lemma ShortestShebang(script: ByteString)
    requires script == [35, 33, 115, 104]
    ensures ShellShebang(script) && !ShellShebang([])
  {
    assert script[1..] == [33, 115, 104] && script[2..] == [115, 104] && script[3..] == [104];
    assert FirstLine(script[3..]) == [104];
    assert FirstLine(script[2..]) == [115, 104];
    assert FirstLine(script[1..]) == [33, 115, 104];
    assert FirstLine(script) == script;
    assert [115, 104] <= FirstLine(script)[2..];
  }
}
