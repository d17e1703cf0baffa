/**
 What `definition` answers, in terms of the declarations of the files and the bytes of their source
 commands: the target under the cursor, else the first declaration of the file, else the least of the others.
 */
module DefinitionAnswers {
  import opened Bytes
  import opened LspPosition
  import opened Positions
  import opened Syntax
  import opened Analyser
  import opened SourceGraph
  import opened SourceCommands
  import opened Index
  import opened Documents
  import opened Workspace
  import opened RenameText
  import opened Rename
  import opened Definition

  // ----- the target under the cursor

  /** The node sources a nonempty target whose literal holds the offset. */
  predicate TargetHolds(n: Node, off: int, target: ByteString) {
    && CallsSource(n, target) && target != []
    && var lit := n.args[1].children[0].name.value;
    lit.pos.offset <= off < lit.end.offset
  }

  /** The `i`-th node is the first such node. */
  ghost predicate UnderCursor(ns: seq<Node>, off: int, i: nat, target: ByteString) {
    && i < |ns| && TargetHolds(ns[i], off, target)
    && forall j, other :: 0 <= j < i ==> !TargetHolds(ns[j], off, other)
  }

  lemma TargetHoldsIff(n: Node, off: int, target: ByteString)
    ensures TargetHolds(n, off, target) <==> TargetAtOffset(n, off) == Some(target) && target != []
  {
    TargetIff(n, target);
  }

  lemma {:induction false} CursorTargetIff(ns: seq<Node>, off: int, target: ByteString)
    ensures CursorTarget(ns, off) == Some(target) <==> exists i: nat :: UnderCursor(ns, off, i, target)
  {
    if ns != [] {
      var first := TargetAtOffset(ns[0], off);
      forall other ensures TargetHolds(ns[0], off, other) <==> first == Some(other) && other != [] {
        TargetHoldsIff(ns[0], off, other);
      }
      CursorTargetIff(ns[1..], off, target);
      if first.Some? && first.value != [] {
        assert first == Some(target) ==> UnderCursor(ns, off, 0, target);
        assert TargetHolds(ns[0], off, first.value);
      } else {
        if i: nat :| UnderCursor(ns[1..], off, i, target) {
          assert UnderCursor(ns, off, i + 1, target);
        }
        if i: nat :| UnderCursor(ns, off, i, target) {
          assert UnderCursor(ns[1..], off, i - 1, target);
        }
      }
    }
  }

  /** The target under the cursor resolves to `v`. */
  ghost predicate CursorSources(u: Uri, file: Node, off: int, resolve: Resolver, v: Uri) {
    exists i: nat, target :: UnderCursor(Walk(file), off, i, target) && resolve(u, target) == Some(v)
  }

  lemma SourceLocationIff(u: Uri, file: Node, off: int, resolve: Resolver, v: Uri)
    ensures SourceLocation(u, file, off, resolve) == Some(Location(v, Range(Position(0, 0), Position(0, 0))))
       <==> CursorSources(u, file, off, resolve, v)
    ensures SourceLocation(u, file, off, resolve).Some? ==>
              SourceLocation(u, file, off, resolve).value.range == Range(Position(0, 0), Position(0, 0))
  {
    var nodes := Walk(file);
    if CursorTarget(nodes, off).Some? { CursorTargetIff(nodes, off, CursorTarget(nodes, off).value); }
    if CursorSources(u, file, off, resolve, v) {
      var i: nat, target :| UnderCursor(nodes, off, i, target) && resolve(u, target) == Some(v);
      CursorTargetIff(nodes, off, target);
    }
  }

  // ----- the whole answer

  /** The request is made in an open document that has a tree, and the position is in it. */
  predicate Asked(s: Snapshot, u: Uri, pos: Position) {
    u in s.files.docs && s.files.docs[u].ast.Some? && OffsetFor(s.files.docs[u].text, s.enc, pos) >= 0
  }

  /** Otherwise there is no answer, nor where there is neither a target nor a word. */
  lemma NoAnswer(s: Snapshot, u: Uri, pos: Position, answer: Option<Location>)
    requires IsDefinition(s, u, pos, answer)
    requires Asked(s, u, pos) ==>
               var d := s.files.docs[u];
               var off := OffsetFor(d.text, s.enc, pos);
               WordOf(d.text, off) == [] && forall v :: !CursorSources(u, d.ast.value, off, s.resolve, v)
    ensures answer == None
  {
    if Asked(s, u, pos) {
      var d := s.files.docs[u];
      var off := OffsetFor(d.text, s.enc, pos);
      var loc := SourceLocation(u, d.ast.value, off, s.resolve);
      if loc.Some? { SourceLocationIff(u, d.ast.value, off, s.resolve, loc.value.uri); }
    }
  }

  /** On a target that resolves, the answer is the start of that file. */
  lemma TargetAnswers(s: Snapshot, u: Uri, pos: Position, answer: Option<Location>, v: Uri)
    requires Asked(s, u, pos) && IsDefinition(s, u, pos, answer)
    requires var d := s.files.docs[u]; CursorSources(u, d.ast.value, OffsetFor(d.text, s.enc, pos), s.resolve, v)
    ensures answer == Some(Location(v, Range(Position(0, 0), Position(0, 0))))
  {
    var d := s.files.docs[u];
    SourceLocationIff(u, d.ast.value, OffsetFor(d.text, s.enc, pos), s.resolve, v);
  }

  /** The cursor is on the word, and on no target that resolves. */
  ghost predicate OnWord(s: Snapshot, u: Uri, pos: Position, word: ByteString) {
    && Asked(s, u, pos) && word != []
    && var d := s.files.docs[u];
    var off := OffsetFor(d.text, s.enc, pos);
    WordOf(d.text, off) == word && forall v :: !CursorSources(u, d.ast.value, off, s.resolve, v)
  }

  lemma OnWordResolves(s: Snapshot, u: Uri, pos: Position, word: ByteString, answer: Option<Location>)
    requires OnWord(s, u, pos, word) && IsDefinition(s, u, pos, answer)
    ensures Resolves(s, u, s.files.docs[u].ast.value, word, answer)
  {
    var d := s.files.docs[u];
    var off := OffsetFor(d.text, s.enc, pos);
    var loc := SourceLocation(u, d.ast.value, off, s.resolve);
    if loc.Some? { SourceLocationIff(u, d.ast.value, off, s.resolve, loc.value.uri); }
  }

  /**
   Then the answer lies in the current file exactly if the file declares the word, and it is the first
   such declaration in walk order, in the text of the document.
   */
  lemma FirstDeclarationAnswers(s: Snapshot, u: Uri, pos: Position, word: ByteString, answer: Option<Location>)
    requires OnWord(s, u, pos, word) && IsDefinition(s, u, pos, answer)
    ensures var decls := Declarations(s.files.docs[u].ast.value);
      (answer.Some? && answer.value.uri == u) <==> exists k :: 0 <= k < |decls| && decls[k].name == word
    ensures var d := s.files.docs[u];
      var decls := Declarations(d.ast.value);
      forall k :: 0 <= k < |decls| && decls[k].name == word && (forall j :: 0 <= j < k ==> decls[j].name != word) ==>
        answer == Some(Location(u, RangeToLsp(d.text, s.enc, decls[k].pos, decls[k].end)))
  {
    OnWordResolves(s, u, pos, word, answer);
    var d := s.files.docs[u];
    var decls := Declarations(d.ast.value);
    forall k | 0 <= k < |decls| && decls[k].name == word && (forall j :: 0 <= j < k ==> decls[j].name != word)
      ensures answer == Some(Location(u, RangeToLsp(d.text, s.enc, decls[k].pos, decls[k].end)))
    {
      assert IsFirst(decls, word, decls[k]);
      var c :| IsFirst(decls, word, c) && answer == Some(DeclarationLocation(s, u, c));
      FirstUnique(decls, word, c, decls[k]);
    }
  }

  /** Another indexed file of the component declares the word. */
  ghost predicate DeclaredElsewhere(s: Snapshot, u: Uri, word: ByteString, v: Uri, d: Declaration) {
    && v != u && v in s.files.index && v in Component(s.files.index, s.resolve, u)
    && d in Declarations(s.files.index[v]) && d.name == word
  }

  /**
   If the file does not declare the word, there is an answer exactly if another file of the component
   does, and it is a declaration of the file with the least URI, at the least offset.
   */
  lemma LeastDeclarationAnswers(s: Snapshot, u: Uri, pos: Position, word: ByteString, answer: Option<Location>)
    requires OnWord(s, u, pos, word) && IsDefinition(s, u, pos, answer)
    requires forall d :: d in Declarations(s.files.docs[u].ast.value) ==> d.name != word
    ensures answer.None? <==> forall v, d :: !DeclaredElsewhere(s, u, word, v, d)
    ensures answer.Some? ==> exists v, d ::
      && DeclaredElsewhere(s, u, word, v, d)
      && answer == Some(Location(v, RangeToLsp(TextFor(s.files, s.disk, v), s.enc, d.pos, d.end)))
      && forall w, e :: DeclaredElsewhere(s, u, word, w, e) ==>
           Less(v.text, w.text) || (v == w && d.pos.offset <= e.pos.offset)
  {
    OnWordResolves(s, u, pos, word, answer);
    forall v, d ensures DeclaredElsewhere(s, u, word, v, d) <==> ForeignHit(s, u, word, DeclarationHit(v, d)) {
    }
    assert !Declares(Declarations(s.files.docs[u].ast.value), word);
    if answer.Some? {
      var h :| LeastForeignHit(s, u, word, h) && answer == Some(DeclarationLocation(s, h.uri, h.declaration));
      assert h == DeclarationHit(h.uri, h.declaration);
      forall w, e | DeclaredElsewhere(s, u, word, w, e)
        ensures Less(h.uri.text, w.text) || (h.uri == w && h.declaration.pos.offset <= e.pos.offset)
      {
        assert !HitBefore(DeclarationHit(w, e), h);
        LessTotal(h.uri.text, w.text);
      }
    } else {
      forall v, d ensures !DeclaredElsewhere(s, u, word, v, d) {
        assert !ForeignHit(s, u, word, DeclarationHit(v, d));
      }
    }
  }
}
