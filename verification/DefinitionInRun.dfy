/**
 Definition and rename in a run: two reachable states, one before and one after the edits of a rename have
 been made.  The index of the second is that of the renamed trees, so definition commutes with the rename.
 */
module DefinitionInRun {
  import opened Bytes
  import opened LspPosition
  import opened Positions
  import opened Syntax
  import opened Analyser
  import opened SourceGraph
  import opened Index
  import opened Documents
  import opened Workspace
  import opened Coherence
  import opened Edits
  import opened RenameTree
  import opened RenameText
  import opened RenameMeaning
  import opened Rename
  import opened RenameInRun
  import opened Definition
  import opened DefinitionRename

  /** What a query sees in a state of a run. */
  function SnapshotOf(s: State, resolve: Resolver, enc: Encoding): Snapshot {
    Snapshot(s.files, s.disk, resolve, enc)
  }

  /** The assumption on the parser for the texts of a component. */
  ghost predicate ComponentParsedWell(cfg: Config, s: State, resolve: Resolver, u: Uri, name: ByteString) {
    forall v :: v in Component(s.files.index, resolve, u) && v in s.files.index ==>
      && ParsedWell(cfg, TextFor(s.files, s.disk, v), name)
      && forall f :: Tree(cfg, TextFor(s.files, s.disk, v)) == Some(f) ==>
           DeclarationsPlaced(TextFor(s.files, s.disk, v), f)
  }

  /**
   Between the two states the edits of a rename have been made in every file of the component, the parser
   reads each edited text as the renamed tree, and the rest of the index has not changed.
   */
  ghost predicate RenameMade(cfg: Config, s: State, t: State, resolve: Resolver, u: Uri, name: ByteString,
                             newName: ByteString)
    requires name != []
  {
    var files := Component(s.files.index, resolve, u);
    && t.files.index.Keys == s.files.index.Keys
    && (forall v :: v in s.files.index && v !in files ==> v in t.files.index && t.files.index[v] == s.files.index[v])
    && forall v :: v in s.files.index && v in files ==>
         RenameMadeIn(cfg, s.files.index[v], TextFor(s.files, s.disk, v), t, v, name, newName)
  }

  ghost predicate RenameMadeIn(cfg: Config, file: Node, text: ByteString, t: State, v: Uri, name: ByteString,
                               newName: ByteString)
    requires name != []
  {
    && (v in t.files.docs || Settled(t, v))
    && TextFor(t.files, t.disk, v) == RenamedText(text, file, name, newName)
    && Tree(cfg, RenamedText(text, file, name, newName)) == Some(RenamedFile(text, file, name, newName))
  }

  /** In such a state every file of the component is indexed by its renamed tree. */
  lemma RenamedInRun(cfg: Config, trace: seq<State>, i: nat, j: nat, resolve: Resolver, enc: Encoding, u: Uri,
                     name: ByteString, newName: ByteString)
    requires IsRun(cfg, trace) && i < |trace| && j < |trace| && HandlerOutside(trace[i]) && HandlerOutside(trace[j])
    requires name != [] && RenameMade(cfg, trace[i], trace[j], resolve, u, name, newName)
    ensures RenamedSnapshot(SnapshotOf(trace[i], resolve, enc), SnapshotOf(trace[j], resolve, enc), u, name, newName)
  {
    var s, t := trace[i], trace[j];
    var files := Component(s.files.index, resolve, u);
    var after := RenamedEntries(s.files.index, Texts(s.files, s.disk), files, name, newName);
    forall v | v in s.files.index ensures v in t.files.index && t.files.index[v] == after[v] {
      assert v in t.files.index.Keys;
      if v in files {
        assert RenameMadeIn(cfg, s.files.index[v], TextFor(s.files, s.disk, v), t, v, name, newName);
        TextsParsed(cfg, trace, j, v);
      }
    }
    assert t.files.index.Keys == after.Keys;
    assert t.files.index == after;
  }

  /** In a state with the component settled, the trees of its files are those of their texts. */
  lemma ComponentFaithfulInRun(cfg: Config, trace: seq<State>, i: nat, resolve: Resolver, enc: Encoding, u: Uri,
                               name: ByteString)
    requires IsRun(cfg, trace) && i < |trace| && HandlerOutside(trace[i])
    requires ComponentSettled(trace[i], resolve, u) && ComponentParsedWell(cfg, trace[i], resolve, u, name)
    ensures ComponentFaithful(SnapshotOf(trace[i], resolve, enc), u, name)
  {
    var s := trace[i];
    forall v | v in Component(s.files.index, resolve, u) && v in s.files.index
      ensures Faithful(TextFor(s.files, s.disk, v), s.files.index[v], name)
      ensures DeclarationsPlaced(TextFor(s.files, s.disk, v), s.files.index[v])
    {
      TextsParsed(cfg, trace, i, v);
    }
  }

  /** The cursor is in an open document inside a use of the name that the index knows, and on the name. */
  ghost predicate OnUse(s: State, u: Uri, name: ByteString, site: nat, off: int) {
    && u in s.files.docs && u in s.files.index && name != []
    && site in UsageSites(s.files.index[u], name) && site <= off < site + |name|
    && WordOf(s.files.docs[u].text, off) == name
  }

  lemma OnUseInRun(cfg: Config, trace: seq<State>, i: nat, resolve: Resolver, enc: Encoding, u: Uri, name: ByteString,
                   site: nat, off: int)
    requires IsRun(cfg, trace) && i < |trace| && HandlerOutside(trace[i]) && OnUse(trace[i], u, name, site, off)
    ensures AtUse(SnapshotOf(trace[i], resolve, enc), u, name, site, off)
  {
    OpenBuffersIndexed(cfg, trace, i);
    assert Lookup(trace[i].files.index, u) == trace[i].files.docs[u].ast;
  }

  /**
   Definition commutes with rename in every run.  Ask in a reachable state at a delimited use of a name;
   let the edits of a rename to an unused name be made throughout the component; ask in a later reachable
   state at the image of the use.  There is an answer then exactly when there was one before, and it is the
   image of the declaration found before.
   */
  lemma DefinitionCommutesInRun(cfg: Config, trace: seq<State>, i: nat, j: nat, resolve: Resolver, enc: Encoding,
                                u: Uri, name: ByteString, newName: ByteString, site: nat, pos: Position,
                                moved: Position, before: Option<Location>, after: Option<Location>)
    requires IsRun(cfg, trace) && i < j < |trace| && HandlerOutside(trace[i]) && HandlerOutside(trace[j])
    requires ComponentSettled(trace[i], resolve, u) && ComponentParsedWell(cfg, trace[i], resolve, u, name)
    requires FreshRename(SnapshotOf(trace[i], resolve, enc), u, name, newName)
    requires RenameMade(cfg, trace[i], trace[j], resolve, u, name, newName)
    requires u in trace[i].files.docs && u in trace[j].files.docs
    requires OnUse(trace[i], u, name, site, OffsetFor(trace[i].files.docs[u].text, enc, pos))
    requires var text := trace[i].files.docs[u].text;
      site <= |text| &&
      var k := Shift(text, UsageSites(trace[i].files.index[u], name), name, newName, site);
      k <= OffsetFor(trace[j].files.docs[u].text, enc, moved) < k + |newName|
    requires IsDefinition(SnapshotOf(trace[i], resolve, enc), u, pos, before)
    requires IsDefinition(SnapshotOf(trace[j], resolve, enc), u, moved, after)
    ensures before.Some? <==> after.Some?
    ensures var s, t := SnapshotOf(trace[i], resolve, enc), SnapshotOf(trace[j], resolve, enc);
      before.Some? ==>
        exists h :: ResolvesTo(s, u, s.files.index[u], name, h)
          && before == Some(DeclarationLocation(s, h.uri, h.declaration))
          && after == Some(DeclarationLocation(t, h.uri, MovedDeclaration(s, name, newName, h).declaration))
  {
    var s, t := SnapshotOf(trace[i], resolve, enc), SnapshotOf(trace[j], resolve, enc);
    RenamedInRun(cfg, trace, i, j, resolve, enc, u, name, newName);
    ComponentFaithfulInRun(cfg, trace, i, resolve, enc, u, name);
    OnUseInRun(cfg, trace, i, resolve, enc, u, name, site, OffsetFor(trace[i].files.docs[u].text, enc, pos));
    OpenBuffersIndexed(cfg, trace, j);
    assert u in t.files.index.Keys;
    assert Lookup(t.files.index, u) == t.files.docs[u].ast;
    DefinitionCommutesWithRename(s, t, u, name, newName, site, pos, moved, before, after);
  }
}
