/** The rename requests: the model of internal/server/rename.go and of `textForURI`. */
module Rename {
  import opened Bytes
  import opened LspPosition
  import opened Positions
  import opened Syntax
  import opened Analyser
  import opened SourceGraph
  import opened Index
  import opened Documents
  import opened Workspace
  import opened RenameText

  /** What a query sees: open documents, index, one snapshot of the disk, and the negotiated encoding. */
  datatype Snapshot = Snapshot(files: Files, disk: Disk, resolve: Resolver, enc: Encoding)

  /** `textForURI`: the open buffer, else the disk, else nothing. */
  function TextFor(files: Files, disk: Disk, u: Uri): ByteString {
    if u in files.docs then files.docs[u].text else if u in disk then disk[u] else []
  }

  predicate IdentifierByte(b: byte) {
    || 'a' as int <= b <= 'z' as int
    || 'A' as int <= b <= 'Z' as int
    || b == '_' as int
    || Digit(b)
  }

  predicate Digit(b: byte) {
    '0' as int <= b <= '9' as int
  }

  predicate ValidIdentifier(s: ByteString) {
    s != [] && !Digit(s[0]) && forall i :: 0 <= i < |s| ==> IdentifierByte(s[i])
  }

  /** A letter or an underscore, then letters, digits and underscores, by their bytes. */
  lemma IdentifierSpelled(s: ByteString)
    ensures ValidIdentifier(s) <==> s != [] && forall i :: 0 <= i < |s| ==>
      65 <= s[i] <= 90 || s[i] == 95 || 97 <= s[i] <= 122 || (i > 0 && 48 <= s[i] <= 57)
  {
    if s != [] && forall i :: 0 <= i < |s| ==>
      65 <= s[i] <= 90 || s[i] == 95 || 97 <= s[i] <= 122 || (i > 0 && 48 <= s[i] <= 57)
    {
      assert !Digit(s[0]);
    }
  }

  /** `isValidIdentifier`. */
  method IsValidIdentifier(s: ByteString) returns (ok: bool)
    ensures ok <==> ValidIdentifier(s)
  {
    if s == [] {
      return false;
    }
    for i := 0 to |s|
      invariant forall k :: 0 <= k < i ==> IdentifierByte(s[k])
      invariant i > 0 ==> !Digit(s[0])
    {
      var b := s[i];
      if 'a' as int <= b <= 'z' as int || 'A' as int <= b <= 'Z' as int || b == '_' as int {
        continue;
      }
      if '0' as int <= b <= '9' as int {
        if i == 0 {
          return false;
        }
      } else {
        return false;
      }
    }
    return true;
  }

  /** The word under the cursor of an open document that has a tree, or nothing. */
  function CursorWord(s: Snapshot, u: Uri, pos: Position): ByteString {
    if u !in s.files.docs || s.files.docs[u].ast.None? then []
    else WordOf(s.files.docs[u].text, OffsetFor(s.files.docs[u].text, s.enc, pos))
  }

  method FindCursorWord(s: Snapshot, u: Uri, pos: Position) returns (word: ByteString, start: nat, end: nat)
    ensures word == CursorWord(s, u, pos)
    ensures word != [] ==>
              var text := s.files.docs[u].text;
              var off := OffsetFor(text, s.enc, pos);
              0 <= off && IsWordRun(text, off, start, end) && word == text[start..end]
  {
    if u !in s.files.docs || s.files.docs[u].ast.None? {
      return [], 0, 0;
    }
    var text := s.files.docs[u].text;
    var off := OffsetForPos(text, s.enc, pos);
    if off < 0 {
      return [], 0, 0;
    }
    word, start, end := WordAtOffset(text, off);
  }

  datatype RenameReply = InvalidName | Edit(changes: map<Uri, seq<TextEdit>>)

  /** The usages that a rename of a word at `u` edits in a file. */
  ghost function RenamedUsagesOf(s: Snapshot, u: Uri, word: ByteString, v: Uri): seq<Usage> {
    UsagesOf(s.files.index, Component(s.files.index, s.resolve, u), word, true, v)
  }

  /** The edits sent for a word: one list for every file of the component that uses it. */
  ghost predicate AreRenameChanges(s: Snapshot, u: Uri, word: ByteString, newName: ByteString,
                                   changes: map<Uri, seq<TextEdit>>)
  {
    && (forall v :: v in changes <==> RenamedUsagesOf(s, u, word, v) != [])
    && (forall v :: v in changes ==>
          changes[v] == RenameEdits(TextFor(s.files, s.disk, v), s.enc, RenamedUsagesOf(s, u, word, v), newName))
  }

  /** The loop of `rename`: each hit is appended to the edits of its file. */
  method CollectEdits(s: Snapshot, hits: seq<UsageHit>, newName: ByteString) returns (changes: map<Uri, seq<TextEdit>>)
    ensures EditsOfHits(s, hits, newName, changes)
  {
    changes := map[];
    for i := 0 to |hits|
      invariant EditsOfHits(s, hits[..i], newName, changes)
    {
      var h := hits[i];
      var text := TextFor(s.files, s.disk, h.uri);
      var edit := TextEdit(RangeToLsp(text, s.enc, h.usage.pos, h.usage.end), newName);
      AppendEdit(s, hits[..i], h, newName, changes);
      assert hits[..i + 1] == hits[..i] + [h];
      changes := changes[h.uri := (if h.uri in changes then changes[h.uri] else []) + [edit]];
    }
    assert hits[..|hits|] == hits;
  }

  ghost predicate EditsOfHits(s: Snapshot, hits: seq<UsageHit>, newName: ByteString, changes: map<Uri, seq<TextEdit>>) {
    && (forall v :: v in changes <==> HitsOf(hits, v) != [])
    && (forall v :: v in changes ==>
        changes[v] == RenameEdits(TextFor(s.files, s.disk, v), s.enc, HitsOf(hits, v), newName))
  }

  lemma AppendEdit(s: Snapshot, hits: seq<UsageHit>, h: UsageHit, newName: ByteString, changes: map<Uri, seq<TextEdit>>)
    requires EditsOfHits(s, hits, newName, changes)
    ensures var edit := TextEdit(RangeToLsp(TextFor(s.files, s.disk, h.uri), s.enc, h.usage.pos, h.usage.end), newName);
      EditsOfHits(s, hits + [h], newName, changes[h.uri := (if h.uri in changes then changes[h.uri] else []) + [edit]])
  {
    assert (hits + [h])[..|hits|] == hits;
    assert forall v :: HitsOf(hits + [h], v) == HitsOf(hits, v) + if h.uri == v then [h.usage] else [];
  }

  /** `rename`. */
  method Rename(s: Snapshot, u: Uri, pos: Position, newName: ByteString) returns (reply: RenameReply)
    ensures reply.InvalidName? <==> !ValidIdentifier(newName)
    ensures reply.Edit? && (u !in s.files.docs || s.files.docs[u].ast.None?) ==> reply.changes == map[]
    ensures var word := CursorWord(s, u, pos);
      reply.Edit? ==>
        if word == [] || !DeclaredIn(s.files.index, Component(s.files.index, s.resolve, u), word) then
          reply.changes == map[]
        else AreRenameChanges(s, u, word, newName, reply.changes)
  {
    var valid := IsValidIdentifier(newName);
    if !valid {
      return InvalidName;
    }
    var word, _, _ := FindCursorWord(s, u, pos);
    if word == [] {
      return Edit(map[]);
    }
    var allowed := ReachableUris(s.files.index, s.resolve, u);
    var hits := UsageHits(s.files.index, allowed, word, true);
    var declared := HasDeclaration(hits);
    WriteHitIffDeclared(s.files.index, allowed, word, hits);
    if !declared {
      return Edit(map[]);
    }
    var changes := CollectEdits(s, hits, newName);
    return Edit(changes);
  }

  /** `prepareRename`. */
  method PrepareRename(s: Snapshot, u: Uri, pos: Position) returns (r: Option<Range>)
    ensures r.Some? ==> u in s.files.docs && s.files.docs[u].ast.Some?
    ensures var word := CursorWord(s, u, pos);
      r.Some? <==>
        && ValidIdentifier(word) && word != ['_' as int]
        && DeclaredIn(s.files.index, Component(s.files.index, s.resolve, u), word)
    ensures r.Some? ==>
              var text := s.files.docs[u].text;
              exists start, end :: IsWordRun(text, OffsetFor(text, s.enc, pos), start, end)
                && r == Some(Range(PositionAt(text, s.enc, start), PositionAt(text, s.enc, end)))
  {
    var word, start, end := FindCursorWord(s, u, pos);
    var valid := IsValidIdentifier(word);
    if !valid || word == ['_' as int] {
      return None;
    }
    var allowed := ReachableUris(s.files.index, s.resolve, u);
    var hits := UsageHits(s.files.index, allowed, word, true);
    var declared := HasDeclaration(hits);
    WriteHitIffDeclared(s.files.index, allowed, word, hits);
    if !declared {
      return None;
    }
    var text := s.files.docs[u].text;
    var from := PosForOffset(text, s.enc, start);
    var to := PosForOffset(text, s.enc, end);
    return Some(Range(from, to));
  }

  /** A name that a component declares is used in it, so a rename that `prepareRename` offers edits something. */
  lemma PreparedRenameEdits(s: Snapshot, u: Uri, word: ByteString, newName: ByteString,
                            changes: map<Uri, seq<TextEdit>>)
    requires word != [] && DeclaredIn(s.files.index, Component(s.files.index, s.resolve, u), word)
    requires AreRenameChanges(s, u, word, newName, changes)
    ensures changes != map[]
  {
    var entries := s.files.index;
    var v, d :| v in entries && v in Component(entries, s.resolve, u) && d in Declarations(entries[v])
      && d.name == word;
    WrittenIffDeclared(entries[v], word);
    assert RenamedUsagesOf(s, u, word, v) != [];
    assert v in changes;
  }
}
