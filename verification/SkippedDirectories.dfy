/**
 What a scan leaves out.  It does not enter the skipped directories, although files in them are indexed
 once they change or are closed; so a finished scan is complete for a file exactly if it visits it.
 */
module SkippedDirectories {
  import opened Bytes
  import opened Syntax
  import opened Index
  import opened Documents
  import opened Scanner
  import opened Workspace
  import opened Coherence
  import opened ShebangRace

  /** A scan has finished, nothing of the closed file is pending, and its entry is not the tree of the disk. */
  ghost predicate Incomplete(cfg: Config, s: State, u: Uri) {
    && Reachable(cfg, s) && HandlerOutside(s) && s.scan == Finished
    && u !in s.files.docs && Settled(s, u)
    && Lookup(s.files.index, u) != if u in s.disk then Tree(cfg, s.disk[u]) else None
  }

  /** A script in a skipped directory is still missing from the index when the scan has finished. */
  lemma SkippedFileMissing(cfg: Config, u: Uri, text: ByteString)
    requires cfg.skipped(u) && Tree(cfg, text).Some?
    ensures exists s :: Incomplete(cfg, s, u)
  {
    Started(cfg, map[u := text]);
    var s := State(map[u := text], Files(map[], map[]), Idle, NotStarted, {}, [], None);
    s := Taken(cfg, s, StartScan);
    assert s.todo == {};
    s := Taken(cfg, s, FinishScan);
    assert Settled(s, u);
    assert Incomplete(cfg, s, u);
  }

  /**
   The exact condition under which, in every run, a finished scan leaves a file with one of the six
   endings indexed as it is on disk: it lies in no skipped directory.
   */
  lemma ScanCompleteIff(cfg: Config, u: Uri, text: ByteString)
    requires cfg.inRoots(u) && EndsAsShell(cfg.path(u)) && Tree(cfg, text).Some?
    ensures (forall s :: !Incomplete(cfg, s, u)) <==> !cfg.skipped(u)
  {
    if cfg.skipped(u) {
      SkippedFileMissing(cfg, u, text);
    } else {
      forall s ensures !Incomplete(cfg, s, u) {
        if Incomplete(cfg, s, u) {
          var trace :| IsRun(cfg, trace) && trace[|trace| - 1] == s;
          ScanComplete(cfg, trace, |trace| - 1, u);
        }
      }
    }
  }
}
