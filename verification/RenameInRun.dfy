/**
 The pieces together: in every reachable state of the server in which nothing is owed to the files
 of a component, the positions of the index are valid in the texts that rename consults, so the edits
 it sends do what rename means.
 */
module RenameInRun {
  import opened Bytes
  import opened Utf8
  import opened LspPosition
  import opened Positions
  import opened ClientPosition
  import opened Syntax
  import opened Analyser
  import opened SourceGraph
  import opened Index
  import opened Documents
  import opened Workspace
  import opened Coherence
  import opened Edits
  import opened RenameTree
  import opened RenameText
  import opened RenameMeaning
  import opened Rename

  /** The assumption on the parser for one text: the tree it returns, if any, satisfies it. */
  ghost predicate ParsedWell(cfg: Config, text: ByteString, name: ByteString) {
    forall f :: Tree(cfg, text) == Some(f) ==> Faithful(text, f, name)
  }

  /** Every indexed file of the component is open, or no event of it is pending or in progress. */
  ghost predicate ComponentSettled(s: State, resolve: Resolver, from: Uri) {
    forall v :: v in Component(s.files.index, resolve, from) ==> v in s.files.docs || Settled(s, v)
  }

  /** The text that rename consults for an indexed file is the text that the indexed tree was parsed from. */
  lemma TextsParsed(cfg: Config, trace: seq<State>, i: nat, v: Uri)
    requires IsRun(cfg, trace) && i < |trace| && HandlerOutside(trace[i])
    requires var s := trace[i]; v in s.files.index && (v in s.files.docs || Settled(s, v))
    ensures var s := trace[i]; Tree(cfg, TextFor(s.files, s.disk, v)) == Some(s.files.index[v])
  {
    var s := trace[i];
    if v in s.files.docs {
      OpenBuffersIndexed(cfg, trace, i);
      assert Paired(cfg.parse, s.files.docs[v]);
    } else {
      IndexedEntriesCurrent(cfg, trace, i, v);
    }
  }

  /** In every reachable state the index holds only spans inside an open buffer's text for it. */
  lemma OpenUsagesInside(cfg: Config, trace: seq<State>, i: nat, u: Uri, name: ByteString, k: nat)
    requires IsRun(cfg, trace) && i < |trace| && HandlerOutside(trace[i])
    requires u in trace[i].files.docs && u in trace[i].files.index && name != []
    requires forall f :: Tree(cfg, trace[i].files.docs[u].text) == Some(f) ==> Placed(trace[i].files.docs[u].text, f)
    requires k < |Usages(trace[i].files.index[u], name)|
    ensures var us, text := Usages(trace[i].files.index[u], name), trace[i].files.docs[u].text;
      us[k].pos.offset <= us[k].end.offset <= |text|
  {
    TextsParsed(cfg, trace, i, u);
    var text, file := trace[i].files.docs[u].text, trace[i].files.index[u];
    var m := UsageIsLit(file, name, k);
    assert LitPlaced(text, Lits(file)[m]);
  }

  /** A word under the cursor is ASCII, whatever the text. */
  lemma CursorWordAscii(s: Snapshot, u: Uri, pos: Position)
    ensures Ascii(CursorWord(s, u, pos))
  {
    var word := CursorWord(s, u, pos);
    if word != [] {
      var text := s.files.docs[u].text;
      WordIsRun(text, OffsetFor(text, s.enc, pos));
    }
  }

  /**
   A rename in a reachable state with the component settled.  In each file it edits, if the client can be
   told where the word is used, it decodes the edits in one way, the decoded edits cover the uses of the
   word and do not overlap, and applying them gives the text of the renamed tree, which is still
   representable.
   */
  lemma {:induction false} RenameEditsCorrect(cfg: Config, trace: seq<State>, i: nat, resolve: Resolver, enc: Encoding,
                                              from: Uri, pos: Position, newName: ByteString,
                                              changes: map<Uri, seq<TextEdit>>, v: Uri, edits: seq<ByteEdit>)
    requires IsRun(cfg, trace) && i < |trace| && HandlerOutside(trace[i])
    requires ComponentSettled(trace[i], resolve, from) && ValidIdentifier(newName)
    requires var snap := Snapshot(trace[i].files, trace[i].disk, resolve, enc);
      var word, text := CursorWord(snap, from, pos), TextFor(snap.files, snap.disk, v);
      && AreRenameChanges(snap, from, word, newName, changes) && v in changes
      && ParsedWell(cfg, text, word) && Representable(text, enc)
      && (v in snap.files.index ==> UsagesReadable(text, snap.files.index[v], word))
      && Decoded(text, enc, changes[v], edits)
    ensures var s := trace[i];
      var word := CursorWord(Snapshot(s.files, s.disk, resolve, enc), from, pos);
      var text := TextFor(s.files, s.disk, v);
      && word != [] && v in s.files.index && v in Component(s.files.index, resolve, from)
      && InBounds(text, edits)
      && (forall k :: 0 <= k < |edits| ==> text[edits[k].start..edits[k].end] == word)
      && (forall j, k :: 0 <= j < k < |edits| ==> edits[j].end <= edits[k].start || edits[k].end <= edits[j].start)
      && Apply(text, edits, 0) == RenamedText(text, s.files.index[v], word, newName)
      && Placed(Apply(text, edits, 0), RenamedFile(text, s.files.index[v], word, newName))
      && Representable(Apply(text, edits, 0), enc)
  {
    var s := trace[i];
    var snap := Snapshot(s.files, s.disk, resolve, enc);
    var word := CursorWord(snap, from, pos);
    var text := TextFor(s.files, s.disk, v);
    assert RenamedUsagesOf(snap, from, word, v) != [];
    CursorWordAscii(snap, from, pos);
    TextsParsed(cfg, trace, i, v);
    RenameIsCorrect(text, enc, s.files.index[v], word, newName, edits);
    RenamedFileReads(text, s.files.index[v], word, newName);
    RenamedRepresentable(text, enc, s.files.index[v], word, newName);
  }

  /** An edit of one ASCII name to another keeps a text representable. */
  lemma RenamedRepresentable(text: ByteString, enc: Encoding, file: Node, name: ByteString, newName: ByteString)
    requires Faithful(text, file, name) && name != [] && Ascii(name) && ValidIdentifier(newName)
    requires Representable(text, enc)
    ensures Representable(RenamedText(text, file, name, newName), enc)
  {
    UsagesAreSites(text, file, name);
    if enc != UTF8 { ReplacedValid(text, UsageSites(file, name), name, newName); }
  }

  /** The texts that rename consults. */
  function Texts(f: Files, disk: Disk): map<Uri, ByteString> {
    map u | u in f.index :: TextFor(f, disk, u)
  }

  /**
   A rename in such a state to a name that the component does not use keeps the meaning of the
   component: same files, old name gone, new name used and spelled exactly at the old sites, and renaming
   back restores every text and tree.
   */
  lemma RenameMeaningKept(cfg: Config, trace: seq<State>, i: nat, resolve: Resolver, from: Uri,
                          word: ByteString, newName: ByteString, v: Uri)
    requires IsRun(cfg, trace) && i < |trace| && HandlerOutside(trace[i])
    requires ComponentSettled(trace[i], resolve, from)
    requires word != [] && newName != [] && word != newName && (IsSourceCommand(word) <==> IsSourceCommand(newName))
    requires var s := trace[i];
      && v in Component(s.files.index, resolve, from) && v in s.files.index
      && forall w :: w in Component(s.files.index, resolve, from) && w in s.files.index ==>
           ParsedWell(cfg, TextFor(s.files, s.disk, w), word) && Usages(s.files.index[w], newName) == []
    ensures var s := trace[i];
      var entries, texts := s.files.index, Texts(s.files, s.disk);
      var after := RenamedEntries(entries, texts, Component(entries, resolve, from), word, newName);
      var r := RenamedText(texts[v], entries[v], word, newName);
      && Component(after, resolve, from) == Component(entries, resolve, from)
      && Faithful(r, after[v], newName)
      && Usages(after[v], word) == []
      && Usages(after[v], newName)
          == MoveUsages(Usages(entries[v], word), newName, Mover(texts[v], entries[v], word, newName))
      && RenamedText(r, after[v], newName, word) == texts[v]
      && RenamedFile(r, after[v], newName, word) == Relocate(entries[v], Settle(texts[v]))
  {
    var s := trace[i];
    var entries, texts := s.files.index, Texts(s.files, s.disk);
    forall w | w in Component(entries, resolve, from) && w in entries
      ensures w in texts && Faithful(texts[w], entries[w], word)
    {
      TextsParsed(cfg, trace, i, w);
    }
    RenamePreservesMeaning(entries, texts, resolve, from, word, newName, v);
  }
}
