/**
 Documents and index together: what each operation of internal/server/workspace.go does to them.

 The index caches two sources of truth: an open buffer for a file that is open, the disk otherwise.
 */
module Workspace {
  import opened Bytes
  import opened Syntax
  import opened SourceGraph
  import opened Index
  import opened Documents
  import opened Scanner

  /** The readable regular files. */
  type Disk = map<Uri, ByteString>

  datatype ChangeKind = Created | Changed | Deleted

  datatype FileEvent = FileEvent(uri: Uri, kind: ChangeKind)

  /** The parser, the path of a URI, whether it lies under a workspace root, and whether a scan skips its directory. */
  datatype Config = Config(parse: Parser, path: Uri -> ByteString, inRoots: Uri -> bool, skipped: Uri -> bool)

  /** Documents and index. */
  datatype Files = Files(docs: map<Uri, Doc>, index: Entries)

  function Tree(cfg: Config, text: ByteString): Option<Node> {
    cfg.parse(text).ast
  }

  /** `workspaceFilePath` succeeds and `IsShellPath` accepts the path. */
  predicate ShellFile(cfg: Config, disk: Disk, u: Uri) {
    cfg.inRoots(u) && IsShellPath(cfg.path(u), Lookup(disk, u))
  }

  /** What the index should hold for a file of the workspace that is not open. */
  function DiskTree(cfg: Config, disk: Disk, u: Uri): Option<Node> {
    if ShellFile(cfg, disk, u) && u in disk then Tree(cfg, disk[u]) else None
  }

  /** A readable file of the workspace that is a shell script by the bytes of its path or its content. */
  predicate ScriptOnDisk(cfg: Config, disk: Disk, u: Uri) {
    && cfg.inRoots(u) && u in disk
    && (EndsAsShell(cfg.path(u)) || (!HasExtension(cfg.path(u)) && OpensWithShebang(disk[u])))
  }

  lemma DiskTreeOfScript(cfg: Config, disk: Disk, u: Uri)
    ensures DiskTree(cfg, disk, u) == if ScriptOnDisk(cfg, disk, u) then cfg.parse(disk[u]).ast else None
  {
    ShellPathIff(cfg.path(u), Lookup(disk, u));
  }

  function Reindexed(cfg: Config, disk: Disk, s: Files, u: Uri): Files {
    s.(index := Put(s.index, u, DiskTree(cfg, disk, u)))
  }

  /** `openDocument`. */
  function AfterOpen(cfg: Config, s: Files, u: Uri, lang: ByteString, version: int, text: ByteString): Files {
    Files(s.docs[u := Parsed(cfg.parse, lang, version, text)], Put(s.index, u, Tree(cfg, text)))
  }

  /** `updateDocument`. */
  function AfterUpdate(cfg: Config, s: Files, u: Uri, version: int, text: ByteString): Files {
    if u in s.docs then AfterOpen(cfg, s, u, s.docs[u].lang, version, text) else s
  }

  /** `saveDocument`. */
  function AfterSave(cfg: Config, s: Files, u: Uri, text: Option<ByteString>): Files {
    if u !in s.docs then s
    else if text.None? then s.(index := Put(s.index, u, s.docs[u].ast))
    else AfterOpen(cfg, s, u, s.docs[u].lang, s.docs[u].version, text.value)
  }

  /** `closeDocument`. */
  function AfterClose(cfg: Config, disk: Disk, s: Files, u: Uri): Files {
    if u in s.docs then Reindexed(cfg, disk, s.(docs := s.docs - {u}), u) else s
  }

  /** `indexWorkspacePath`, for a path the scanner has found to be a shell script. */
  function AfterVisit(cfg: Config, disk: Disk, s: Files, u: Uri): Files {
    if u in s.docs || u !in disk then s else s.(index := Put(s.index, u, Tree(cfg, disk[u])))
  }

  /** `refreshWorkspaceFile`. */
  function AfterRefresh(cfg: Config, disk: Disk, s: Files, u: Uri): Files {
    if u in s.docs then s else Reindexed(cfg, disk, s, u)
  }

  /** `removeWorkspaceFile`. */
  function AfterRemove(cfg: Config, s: Files, u: Uri): Files {
    if u in s.docs || !cfg.inRoots(u) then s else s.(index := Put(s.index, u, None))
  }

  /** One change of `handleDidChangeWatchedFiles`. */
  function AfterWatch(cfg: Config, disk: Disk, s: Files, e: FileEvent): Files {
    if e.kind == Deleted then AfterRemove(cfg, s, e.uri) else AfterRefresh(cfg, disk, s, e.uri)
  }

  function AfterBurst(cfg: Config, disk: Disk, s: Files, events: seq<FileEvent>): Files {
    if events == [] then s
    else AfterWatch(cfg, disk, AfterBurst(cfg, disk, s, events[..|events| - 1]), events[|events| - 1])
  }

  /** Every open document is paired with its tree, and the index holds that tree. */
  predicate BuffersIndexed(cfg: Config, s: Files) {
    forall u {:trigger s.docs[u]} :: u in s.docs ==> Paired(cfg.parse, s.docs[u]) && Lookup(s.index, u) == s.docs[u].ast
  }

  /** The operations of one file leave documents and entries of every other file alone. */
  ghost predicate OthersKept(s: Files, t: Files, u: Uri) {
    forall v :: v != u ==> Lookup(s.docs, v) == Lookup(t.docs, v) && Lookup(s.index, v) == Lookup(t.index, v)
  }

  /** Neither the scanner nor a watched change touches an open document or its index entry. */
  lemma OpenBufferWins(cfg: Config, disk: Disk, s: Files, u: Uri, e: FileEvent)
    requires u in s.docs
    ensures AfterVisit(cfg, disk, s, u) == s
    ensures e.uri == u ==> AfterWatch(cfg, disk, s, e) == s
    ensures e.uri != u ==> OthersKept(s, AfterWatch(cfg, disk, s, e), e.uri)
  {
  }

  /** A burst of changes leaves every open document and its entry alone. */
  lemma {:induction false} BurstKeepsBuffers(cfg: Config, disk: Disk, s: Files, events: seq<FileEvent>, u: Uri)
    requires u in s.docs
    ensures var t := AfterBurst(cfg, disk, s, events); t.docs == s.docs && Lookup(t.index, u) == Lookup(s.index, u)
  {
    if events != [] { BurstKeepsBuffers(cfg, disk, s, events[..|events| - 1], u); }
  }

  /** Of the changes of a closed file in a burst the last one decides. */
  lemma {:induction false} BurstLastWins(cfg: Config, disk: Disk, s: Files, events: seq<FileEvent>, k: nat)
    requires k < |events| && events[k].uri !in s.docs && cfg.inRoots(events[k].uri)
    requires forall j :: k < j < |events| ==> events[j].uri != events[k].uri
    ensures var t, u := AfterBurst(cfg, disk, s, events), events[k].uri;
      t.docs == s.docs
        && Lookup(t.index, u) == if events[k].kind != Deleted && ScriptOnDisk(cfg, disk, u)
                                 then cfg.parse(disk[u]).ast else None
  {
    var n, u := |events| - 1, events[k].uri;
    if k < n {
      BurstLastWins(cfg, disk, s, events[..n], k);
    } else {
      BurstKeepsDocs(cfg, disk, s, events[..n]);
      DiskTreeOfScript(cfg, disk, u);
    }
  }

  lemma {:induction false} BurstKeepsDocs(cfg: Config, disk: Disk, s: Files, events: seq<FileEvent>)
    ensures AfterBurst(cfg, disk, s, events).docs == s.docs
  {
    if events != [] { BurstKeepsDocs(cfg, disk, s, events[..|events| - 1]); }
  }

  /** Closing a document and reopening it with the same text undoes the close. */
  lemma CloseThenOpen(cfg: Config, disk: Disk, s: Files, u: Uri)
    requires BuffersIndexed(cfg, s) && u in s.docs
    ensures var d := s.docs[u];
      var t := AfterOpen(cfg, AfterClose(cfg, disk, s, u), u, d.lang, d.version, d.text);
      t.docs == s.docs && forall v :: Lookup(t.index, v) == Lookup(s.index, v)
  {
  }
}
