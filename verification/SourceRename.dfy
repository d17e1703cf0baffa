/**
 Renaming the command that sources files: the exact condition under which a rename leaves the source
 graph as it is, and a component that comes apart when it does not hold.
 */
module SourceRename {
  import opened Bytes
  import opened Positions
  import opened Syntax
  import opened Analyser
  import opened SourceGraph
  import opened SourceCommands
  import opened RenameTree
  import opened RenameText
  import opened RenameMeaning

  // ----- a file that consists of a command and an argument

  /** A single-literal word that covers a stretch of a text. */
  function WordAt(text: ByteString, a: nat, b: nat): Node
    requires a <= b <= |text|
  {
    Node(Word, None, [Node(Literal, Some(Lit(text[a..b], PosAt(text, a), PosAt(text, b))), [])])
  }

  /** The text of a command with the argument "x". */
  function CommandText(command: ByteString): ByteString {
    command + [32, 120]
  }

  function CommandCall(command: ByteString): Node {
    var text, k := CommandText(command), |command|;
    CallExpr([], [WordAt(text, 0, k), WordAt(text, k + 1, k + 2)])
  }

  /** The tree of that text: a file with one statement. */
  function CommandFile(command: ByteString): Node {
    Node(Other, None, [Node(Other, None, [CommandCall(command)])])
  }

  lemma {:induction false} WalkOne(n: Node)
    ensures WalkAll([n]) == Walk(n) && LitsAll([n]) == Lits(n)
  {
    assert [n][1..] == [];
  }

  lemma WordParts(text: ByteString, a: nat, b: nat)
    requires a <= b <= |text|
    ensures var w := WordAt(text, a, b);
      && Walk(w) == [w, w.children[0]] && Lits(w) == [w.children[0].name.value]
      && SingleLit(w) == w.children[0].name
  {
    WalkOne(WordAt(text, a, b).children[0]);
  }

  lemma {:induction false} WalkTwo(n: Node, m: Node)
    ensures WalkAll([n, m]) == Walk(n) + Walk(m) && LitsAll([n, m]) == Lits(n) + Lits(m)
  {
    assert [n, m][1..] == [m];
    WalkOne(m);
  }

  lemma CallParts(command: ByteString)
    ensures var call := CommandCall(command);
      var u, v := call.args[0], call.args[1];
      && Walk(call) == [call, u, u.children[0], v, v.children[0]]
      && Lits(call) == [u.children[0].name.value, v.children[0].name.value]
      && SingleLit(u) == u.children[0].name && SingleLit(v) == v.children[0].name
  {
    var call, text, k := CommandCall(command), CommandText(command), |command|;
    WalkTwo(call.args[0], call.args[1]);
    WordParts(text, 0, k);
    WordParts(text, k + 1, k + 2);
  }

  /** The nodes and literals of the file. */
  lemma CommandParts(command: ByteString)
    ensures var file, call := CommandFile(command), CommandCall(command);
      var u, v := call.args[0], call.args[1];
      && Walk(file) == [file, file.children[0], call, u, u.children[0], v, v.children[0]]
      && Lits(file) == [u.children[0].name.value, v.children[0].name.value]
      && SingleLit(u) == u.children[0].name && SingleLit(v) == v.children[0].name
  {
    CallParts(command);
    WalkOne(CommandCall(command));
    WalkOne(CommandFile(command).children[0]);
  }

  /** The file is a faithful reading of the text: the command is used once, at its start. */
  lemma CommandFileFaithful(command: ByteString)
    requires command != []
    ensures Faithful(CommandText(command), CommandFile(command), command)
  {
    var file, call, text, k := CommandFile(command), CommandCall(command), CommandText(command), |command|;
    CommandParts(command);
    assert text[0..k] == command;
    CommandUsages(command);
    assert AllPlaced(text, Lits(file));
  }

  lemma CommandUsages(command: ByteString)
    requires command != []
    ensures Usages(CommandFile(command), command)
         == [Usage(command, Read, PosAt(CommandText(command), 0), PosAt(CommandText(command), |command|))]
  {
    var ns, text := Walk(CommandFile(command)), CommandText(command);
    CommandParts(command);
    assert text[0..|command|] == command;
    assert ns[..7] == ns && ns[..7][..6] == ns[..6] && ns[..6][..5] == ns[..5] && ns[..5][..4] == ns[..4];
    assert ns[..4][..3] == ns[..3] && ns[..3][..2] == ns[..2] && ns[..2][..1] == ns[..1] && ns[..1][..0] == [];
    assert UsagesIn(ns[..2], command) == [] by {
      assert UsagesIn(ns[..1], command) == [];
    }
    assert UsagesIn(ns[..3], command) == UsageAt(ns[2], command);
    assert UsagesIn(ns[..5], command) == UsagesIn(ns[..3], command) by {
      assert UsagesIn(ns[..4], command) == UsagesIn(ns[..3], command);
    }
    assert UsagesIn(ns, command) == UsagesIn(ns[..5], command) by {
      assert UsagesIn(ns[..6], command) == UsagesIn(ns[..5], command);
    }
  }

  /** The call is the third node of the file, before a rename and after it. */
  lemma {:induction false} CommandTarget(command: ByteString, newName: ByteString, base: Uri, resolve: Resolver)
    requires command != []
    ensures var text, file := CommandText(command), CommandFile(command);
      var renamed := RenamedFile(text, file, command, newName);
      && SourcedIn(Walk(file), base, resolve) == (if IsSourceCommand(command) then Resolved(base, resolve) else [])
      && SourcedIn(Walk(renamed), base, resolve) == (if IsSourceCommand(newName) then Resolved(base, resolve) else [])
  {
    var text, file := CommandText(command), CommandFile(command);
    var ns, ms := Walk(file), Walk(RenamedFile(text, file, command, newName));
    CommandParts(command);
    ViewInRenamed(file, command, newName, Mover(text, file, command, newName));
    assert text[0..|command|] == command && text[|command| + 1..|command| + 2] == [120];
    forall i | 0 <= i < 7 && i != 2 ensures SourceTarget(ns[i]) == None && SourceTarget(ms[i]) == None {
      TargetInView(ns[i]);
      TargetInView(ms[i]);
    }
    TargetInView(ns[2]);
    TargetInView(ms[2]);
    OnlyTarget(ns, base, resolve);
    OnlyTarget(ms, base, resolve);
  }

  function Resolved(base: Uri, resolve: Resolver): seq<Uri> {
    if resolve(base, [120]).None? then [] else [resolve(base, [120]).value]
  }

  lemma {:induction false} OnlyTarget(ns: seq<Node>, base: Uri, resolve: Resolver)
    requires |ns| == 7 && forall i :: 0 <= i < 7 && i != 2 ==> SourceTarget(ns[i]) == None
    ensures SourcedIn(ns, base, resolve) == SourcedAt(ns[2], base, resolve)
  {
    NoTargets(ns[..2], base, resolve);
    assert ns[..3][..2] == ns[..2];
    NoTargets(ns[3..], base, resolve);
    SourcedAppend(ns[..3], ns[3..], base, resolve);
    assert ns == ns[..3] + ns[3..];
  }

  lemma {:induction false} NoTargets(ns: seq<Node>, base: Uri, resolve: Resolver)
    requires forall i :: 0 <= i < |ns| ==> SourceTarget(ns[i]) == None
    ensures SourcedIn(ns, base, resolve) == []
  {
    if ns != [] { NoTargets(ns[..|ns| - 1], base, resolve); }
  }

  lemma {:induction false} SourcedAppend(a: seq<Node>, b: seq<Node>, base: Uri, resolve: Resolver)
    ensures SourcedIn(a + b, base, resolve) == SourcedIn(a, base, resolve) + SourcedIn(b, base, resolve)
  {
    if b == [] {
      assert a + b == a;
    } else {
      assert (a + b)[..|a + b| - 1] == a + b[..|b| - 1];
      SourcedAppend(a, b[..|b| - 1], base, resolve);
    }
  }

  /** A rename of this name keeps what this file sources. */
  ghost predicate SourcesKept(text: ByteString, file: Node, name: ByteString, newName: ByteString, base: Uri,
                              resolve: Resolver)
    requires name != []
  {
    SourcedIn(Walk(RenamedFile(text, file, name, newName)), base, resolve) == SourcedIn(Walk(file), base, resolve)
  }

  /**
   The exact condition under which a rename keeps what every file sources: old and new name are both, or
   neither, `source` or `.`.  Otherwise the file that consists of the old name and an argument changes.
   */
  lemma SourceKeptIff(name: ByteString, newName: ByteString)
    requires name != []
    ensures (IsSourceCommand(name) <==> IsSourceCommand(newName)) <==>
      forall text, file, base, resolve :: Faithful(text, file, name) ==>
        SourcesKept(text, file, name, newName, base, resolve)
  {
    if IsSourceCommand(name) <==> IsSourceCommand(newName) {
      forall text, file, base, resolve ensures SourcesKept(text, file, name, newName, base, resolve) {
        SourcesKeptBy(text, file, name, newName, base, resolve);
      }
    } else {
      var base := Uri([]);
      var resolve: Resolver := (b, t) => Some(b);
      SourceLost(name, newName, base, resolve);
      CommandFileFaithful(name);
    }
  }

  lemma SourcesKeptBy(text: ByteString, file: Node, name: ByteString, newName: ByteString, base: Uri,
                      resolve: Resolver)
    requires name != [] && (IsSourceCommand(name) <==> IsSourceCommand(newName))
    ensures SourcesKept(text, file, name, newName, base, resolve)
  {
    var move := Mover(text, file, name, newName);
    ViewInRenamed(file, name, newName, move);
    SourcedSeen(Walk(file), Walk(RenamedFile(text, file, name, newName)), name, newName, move, base, resolve);
  }

  /** The command gains or loses its target. */
  lemma SourceLost(name: ByteString, newName: ByteString, base: Uri, resolve: Resolver)
    requires name != [] && (IsSourceCommand(name) <==> !IsSourceCommand(newName))
    requires resolve(base, [120]).Some?
    ensures !SourcesKept(CommandText(name), CommandFile(name), name, newName, base, resolve)
  {
    CommandTarget(name, newName, base, resolve);
  }

  /** The text `. x`, read as a call, connects its file with the file that `x` resolves to. */
  lemma DotConnects(a: Uri, b: Uri)
    ensures CommandText([46]) == [46, 32, 120] && Faithful([46, 32, 120], CommandFile([46]), [46])
    ensures var entries := map[a := CommandFile([46]), b := Node(Other, None, [])];
      var resolve: Resolver := (base, target) => if target == [120] then Some(b) else None;
      a != b ==> b in Component(entries, resolve, a) && a in Component(entries, resolve, b)
  {
    CommandFileFaithful([46]);
    if a != b {
      var entries := map[a := CommandFile([46]), b := Node(Other, None, [])];
      var resolve: Resolver := (base, target) => if target == [120] then Some(b) else None;
      CommandParts([46]);
      assert CommandText([46])[0..1] == [46] && CommandText([46])[2..3] == [120];
      CommandConnects(entries, resolve, a, b, 2, [120]);
    }
  }

  // ----- a component that comes apart

  /** Two files, the first of which sources the second: renaming the command `source` takes them apart. */
  lemma RenamingSourceDisconnects(a: Uri, b: Uri, newName: ByteString)
    requires a != b && !IsSourceCommand(newName)
    ensures var entries := map[a := CommandFile(SOURCE), b := Node(Other, None, [])];
      var texts := map[a := CommandText(SOURCE), b := []];
      var resolve: Resolver := (base, target) => Some(b);
      var files := Component(entries, resolve, a);
      && b in files
      && Component(RenamedEntries(entries, texts, files, SOURCE, newName), resolve, a) == {a}
  {
    var resolve: Resolver := (base, target) => Some(b);
    CommandTarget(SOURCE, newName, a, resolve);
    SourcingFileDisconnected(CommandFile(SOURCE), CommandText(SOURCE), resolve, a, b, SOURCE, newName);
  }

  /** A file sources an empty one, and after a rename it does not. */
  lemma {:induction false} SourcingFileDisconnected(file: Node, text: ByteString, resolve: Resolver, a: Uri, b: Uri,
                                                    name: ByteString, newName: ByteString)
    requires a != b && name != []
    requires SourcedIn(Walk(file), a, resolve) == [b]
    requires SourcedIn(Walk(RenamedFile(text, file, name, newName)), a, resolve) == []
    ensures var entries, texts := map[a := file, b := Node(Other, None, [])], map[a := text, b := []];
      var files := Component(entries, resolve, a);
      && b in files
      && Component(RenamedEntries(entries, texts, files, name, newName), resolve, a) == {a}
  {
    var entries, texts := map[a := file, b := Node(Other, None, [])], map[a := text, b := []];
    SourcedKeptInEmpty(b, name, newName, resolve);
    TwoFilesDisconnected(entries, texts, resolve, a, b, name, newName);
  }

  lemma {:induction false} TwoFilesDisconnected(entries: Entries, texts: map<Uri, ByteString>, resolve: Resolver,
                                                a: Uri, b: Uri, name: ByteString, newName: ByteString)
    requires a != b && name != [] && entries.Keys == {a, b} && texts.Keys == {a, b}
    requires SourcedIn(Walk(entries[a]), a, resolve) == [b]
    requires SourcedIn(Walk(RenamedFile(texts[a], entries[a], name, newName)), a, resolve) == []
    requires SourcedIn(Walk(RenamedFile(texts[b], entries[b], name, newName)), b, resolve) == []
    ensures var files := Component(entries, resolve, a);
      && b in files
      && Component(RenamedEntries(entries, texts, files, name, newName), resolve, a) == {a}
  {
    SourcedConnected(entries, resolve, a, b);
    SourcelessAlone(RenamedEntries(entries, texts, Component(entries, resolve, a), name, newName), resolve, a);
  }

  lemma SourcedConnected(entries: Entries, resolve: Resolver, a: Uri, b: Uri)
    requires b in entries && Sourced(entries, a, resolve) == [b]
    ensures a in Component(entries, resolve, a) && b in Component(entries, resolve, a)
  {
    ComponentIsLeast(entries, resolve, a);
    assert b in Sourced(entries, a, resolve);
    assert Neighbour(entries, resolve, a, b);
  }

  lemma SourcelessAlone(entries: Entries, resolve: Resolver, a: Uri)
    requires forall v :: v in entries ==> Sourced(entries, v, resolve) == []
    ensures Component(entries, resolve, a) == {a}
  {
    ComponentIsLeast(entries, resolve, a);
    assert Closed(entries, resolve, {a});
  }

  lemma {:induction false} SourcedKeptInEmpty(base: Uri, name: ByteString, newName: ByteString, resolve: Resolver)
    requires name != []
    ensures SourcedIn(Walk(RenamedFile([], Node(Other, None, []), name, newName)), base, resolve) == []
  {
    var renamed := RenamedFile([], Node(Other, None, []), name, newName);
    assert Walk(renamed) == [renamed] && [renamed][..0] == [];
  }
}
