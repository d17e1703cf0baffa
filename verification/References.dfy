/** Finding references: the model of internal/server/references.go. */
module References {
  import opened Bytes
  import opened Positions
  import opened Syntax
  import opened Selection
  import opened Analyser
  import opened SourceGraph
  import opened Index
  import opened Documents
  import opened Workspace
  import opened RenameText
  import opened Rename
  import opened Definition

  /** The ranges reported for one file, in their order. */
  function RangesOf(locs: seq<Location>, v: Uri): seq<Range> {
    if locs == [] then []
    else RangesOf(locs[..|locs| - 1], v) + if locs[|locs| - 1].uri == v then [locs[|locs| - 1].range] else []
  }

  function UsageRanges(text: ByteString, enc: Encoding, us: seq<Usage>): (r: seq<Range>)
    ensures |r| == |us|
  {
    seq(|us|, i requires 0 <= i < |us| => RangeToLsp(text, enc, us[i].pos, us[i].end))
  }

  /** Each file's uses of the word are reported once and in order, rendered against the text consulted for the file. */
  ghost predicate AreReferences(s: Snapshot, u: Uri, word: ByteString, includeDecl: bool, locs: seq<Location>) {
    forall v :: RangesOf(locs, v) ==
      UsageRanges(TextFor(s.files, s.disk, v), s.enc,
                  UsagesOf(s.files.index, Component(s.files.index, s.resolve, u), word, includeDecl, v))
  }

  ghost predicate AreHitRanges(s: Snapshot, hits: seq<UsageHit>, locs: seq<Location>) {
    forall v :: RangesOf(locs, v) == UsageRanges(TextFor(s.files, s.disk, v), s.enc, HitsOf(hits, v))
  }

  lemma OneMoreRange(s: Snapshot, hits: seq<UsageHit>, locs: seq<Location>, h: UsageHit)
    requires AreHitRanges(s, hits, locs)
    ensures var range := RangeToLsp(TextFor(s.files, s.disk, h.uri), s.enc, h.usage.pos, h.usage.end);
      AreHitRanges(s, hits + [h], locs + [Location(h.uri, range)])
  {
    var l := Location(h.uri, RangeToLsp(TextFor(s.files, s.disk, h.uri), s.enc, h.usage.pos, h.usage.end));
    assert (hits + [h])[..|hits|] == hits && (locs + [l])[..|locs|] == locs;
    forall v ensures RangesOf(locs + [l], v) == UsageRanges(TextFor(s.files, s.disk, v), s.enc, HitsOf(hits + [h], v)) {
      assert HitsOf(hits + [h], v) == HitsOf(hits, v) + if h.uri == v then [h.usage] else [];
      assert RangesOf(locs, v) == UsageRanges(TextFor(s.files, s.disk, v), s.enc, HitsOf(hits, v));
    }
  }

  /** `references`. */
  method FindReferences(s: Snapshot, u: Uri, pos: Position, includeDecl: bool) returns (locs: seq<Location>)
    ensures u !in s.files.docs || s.files.docs[u].ast.None? ==> locs == []
    ensures var word := CursorWord(s, u, pos);
      if word == [] then locs == [] else AreReferences(s, u, word, includeDecl, locs)
  {
    locs := [];
    var word, _, _ := FindCursorWord(s, u, pos);
    if word == [] {
      return;
    }
    var allowed := ReachableUris(s.files.index, s.resolve, u);
    var hits := UsageHits(s.files.index, allowed, word, includeDecl);
    for i := 0 to |hits|
      invariant AreHitRanges(s, hits[..i], locs)
    {
      OneMoreRange(s, hits[..i], locs, hits[i]);
      assert hits[..i + 1] == hits[..i] + [hits[i]];
      var text, usage := TextFor(s.files, s.disk, hits[i].uri), hits[i].usage;
      locs := locs + [Location(hits[i].uri, RangeToLsp(text, s.enc, usage.pos, usage.end))];
    }
    assert hits[..|hits|] == hits;
  }

  function LiesIn(v: Uri): Location -> bool {
    (l: Location) => l.uri == v
  }

  function RangeOf(): Location -> Range {
    (l: Location) => l.range
  }

  /** Where the locations of a file are. */
  lemma {:induction false} RangesSelected(locs: seq<Location>, v: Uri) returns (at: seq<nat>)
    ensures Picks(at, locs, RangesOf(locs, v), LiesIn(v), RangeOf())
  {
    if locs == [] {
      at := [];
    } else {
      var front, last := locs[..|locs| - 1], locs[|locs| - 1];
      at := RangesSelected(front, v);
      PicksOneMore(at, front, RangesOf(front, v), last, LiesIn(v), RangeOf());
      assert locs == front + [last];
      if last.uri == v { at := at + [|front|]; }
    }
  }

  /**
   The locations in an indexed file of the component are, in order, the ranges of the usages of the word:
   of all of them, or of the reads alone.  No other file has one.
   */
  lemma ReferencesInOrder(s: Snapshot, u: Uri, word: ByteString, includeDecl: bool, locs: seq<Location>, v: Uri)
    returns (at: seq<nat>, from: seq<nat>)
    requires AreReferences(s, u, word, includeDecl, locs)
    ensures Selects(at, locs, (l: Location) => l.uri == v)
    ensures v in s.files.index && v in Component(s.files.index, s.resolve, u) ==>
              var all, text := Usages(s.files.index[v], word), TextFor(s.files, s.disk, v);
              && Selects(from, all, (x: Usage) => includeDecl || x.kind == Read) && |at| == |from|
              && forall i :: 0 <= i < |at| ==>
                   locs[at[i]] == Location(v, RangeToLsp(text, s.enc, all[from[i]].pos, all[from[i]].end))
    ensures v !in s.files.index || v !in Component(s.files.index, s.resolve, u) ==> at == []
  {
    at := RangesSelected(locs, v);
    var c, text := Component(s.files.index, s.resolve, u), TextFor(s.files, s.disk, v);
    assert RangesOf(locs, v)
        == UsageRanges(text, s.enc, UsagesOf(s.files.index, c, word, includeDecl, v));
    from := [];
    if v in s.files.index && v in c { from := WantedSelected(Usages(s.files.index[v], word), includeDecl); }
  }

  /** The references of a word are the same from every file of its component. */
  lemma ReferencesOfComponent(s: Snapshot, a: Uri, b: Uri, word: ByteString, includeDecl: bool, locs: seq<Location>)
    requires a in s.files.index && b in Component(s.files.index, s.resolve, a)
    ensures AreReferences(s, a, word, includeDecl, locs) <==> AreReferences(s, b, word, includeDecl, locs)
  {
    ComponentsPartition(s.files.index, s.resolve, a, b);
  }

  /** A rename edits exactly the references of the word, declarations included. */
  lemma {:induction false} RenameEditsReferences(s: Snapshot, u: Uri, word: ByteString, newName: ByteString,
                                                 locs: seq<Location>, changes: map<Uri, seq<TextEdit>>, v: Uri)
    requires AreReferences(s, u, word, true, locs) && AreRenameChanges(s, u, word, newName, changes)
    ensures v in changes <==> RangesOf(locs, v) != []
    ensures v in changes ==> |changes[v]| == |RangesOf(locs, v)|
    ensures v in changes ==> forall i :: 0 <= i < |changes[v]| ==>
      changes[v][i] == TextEdit(RangesOf(locs, v)[i], newName)
  {
    assert RangesOf(locs, v) == UsageRanges(TextFor(s.files, s.disk, v), s.enc, RenamedUsagesOf(s, u, word, v));
  }
}
