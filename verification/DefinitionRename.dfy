/**
 Definition commutes with rename: at a delimited use of a name, resolving after a rename to an unused
 name leads to the image of the declaration that was found before it.
 */
module DefinitionRename {
  import opened Bytes
  import opened LspPosition
  import opened Positions
  import opened Syntax
  import opened Analyser
  import opened SourceGraph
  import opened Index
  import opened Documents
  import opened Workspace
  import opened Edits
  import opened RenameTree
  import opened RenameText
  import opened RenameMeaning
  import opened Rename
  import opened RenameInRun
  import opened Definition

  // ----- a usage is never the target of a source command

  function TargetLit(n: Node): Option<Lit> {
    if SourceTarget(n).None? then None else SingleLit(n.args[1])
  }

  /** How often a node takes a literal, as a use of the name and as the target of a source command. */
  function TakenAt(n: Node, name: ByteString, x: Lit): nat {
    (if UsageLit(n, name).Some? && UsageLit(n, name).value.1 == x then 1 else 0)
    + (if TargetLit(n) == Some(x) then 1 else 0)
  }

  function Taken(ns: seq<Node>, name: ByteString, x: Lit): nat {
    if ns == [] then 0 else TakenAt(ns[0], name, x) + Taken(ns[1..], name, x)
  }

  function Count(lits: seq<Lit>, x: Lit): nat {
    if lits == [] then 0 else (if lits[0] == x then 1 else 0) + Count(lits[1..], x)
  }

  lemma {:induction false} TakenAppend(a: seq<Node>, b: seq<Node>, name: ByteString, x: Lit)
    ensures Taken(a + b, name, x) == Taken(a, name, x) + Taken(b, name, x)
  {
    if a == [] {
      assert a + b == b;
    } else {
      assert (a + b)[1..] == a[1..] + b;
      TakenAppend(a[1..], b, name, x);
    }
  }

  lemma {:induction false} CountAppend(a: seq<Lit>, b: seq<Lit>, x: Lit)
    ensures Count(a + b, x) == Count(a, x) + Count(b, x)
  {
    if a == [] {
      assert a + b == b;
    } else {
      assert (a + b)[1..] == a[1..] + b;
      CountAppend(a[1..], b, x);
    }
  }

  lemma {:induction false} TakenHead(n: Node, ns: seq<Node>, name: ByteString, x: Lit)
    ensures Taken([n] + ns, name, x) == TakenAt(n, name, x) + Taken(ns, name, x)
  {
    assert ([n] + ns)[1..] == ns;
  }

  predicate TakenOnceIn(ns: seq<Node>, name: ByteString, x: Lit) {
    Taken(WalkAll(ns), name, x) <= Count(LitsAll(ns), x)
  }

  /** No node of a single-literal word takes the literal of the word. */
  predicate Spare(word: Node, name: ByteString, x: Lit) {
    && SingleLit(word).Some?
    && Taken(Walk(word), name, x) + (if SingleLit(word).value == x then 1 else 0) <= Count(Lits(word), x)
  }

  lemma WordSpare(word: Node, name: ByteString, x: Lit)
    requires SingleLit(word).Some? && TakenOnceIn(word.children[0].children, name, x)
    ensures Spare(word, name, x)
  {
    var lit := word.children[0];
    assert word.children == [lit] && [lit][1..] == [];
    assert WalkAll([lit]) == Walk(lit) + WalkAll([]);
    assert Walk(word) == [word] + ([lit] + WalkAll(lit.children));
    TakenHead(word, [lit] + WalkAll(lit.children), name, x);
    TakenHead(lit, WalkAll(lit.children), name, x);
    LitsOfWord(word);
    CountAppend(OwnLit(word), [lit.name.value] + LitsAll(lit.children), x);
    CountAppend([lit.name.value], LitsAll(lit.children), x);
  }

  /** What a call takes itself is spare in its arguments. */
  lemma {:induction false} TakenByCall(n: Node, name: ByteString, x: Lit)
    requires n.CallExpr? && TakenOnceIn(n.args, name, x)
    requires Command(n).Some? ==> Spare(n.args[0], name, x) && TakenOnceIn(n.args[1..], name, x)
    requires SourceTarget(n).Some? ==> Spare(n.args[1], name, x) && TakenOnceIn(n.args[2..], name, x)
    ensures TakenAt(n, name, x) + Taken(WalkAll(n.args), name, x) <= Count(LitsAll(n.args), x)
  {
    if Command(n).Some? {
      TakenAppend(Walk(n.args[0]), WalkAll(n.args[1..]), name, x);
      CountAppend(Lits(n.args[0]), LitsAll(n.args[1..]), x);
      if SourceTarget(n).Some? {
        assert n.args[1..][1..] == n.args[2..];
        TakenAppend(Walk(n.args[1]), WalkAll(n.args[2..]), name, x);
        CountAppend(Lits(n.args[1]), LitsAll(n.args[2..]), x);
      }
    }
  }

  /** A tree takes a literal no more often than it holds it. */
  lemma {:induction false} TakenOnce(n: Node, name: ByteString, x: Lit)
    ensures Taken(Walk(n), name, x) <= Count(Lits(n), x)
    decreases n, 1
  {
    if n.Node? {
      TakenOnceAll(n.children, name, x);
      TakenHead(n, WalkAll(n.children), name, x);
      CountAppend(OwnLit(n), LitsAll(n.children), x);
    } else {
      TakenOnceAll(n.assigns, name, x);
      TakenOnceAll(n.args, name, x);
      TakenOnceInWords(n, name, x);
      TakenByCall(n, name, x);
      assert Walk(n) == [n] + (WalkAll(n.assigns) + WalkAll(n.args));
      TakenHead(n, WalkAll(n.assigns) + WalkAll(n.args), name, x);
      TakenAppend(WalkAll(n.assigns), WalkAll(n.args), name, x);
      CountAppend(LitsAll(n.assigns), LitsAll(n.args), x);
    }
  }

  lemma {:induction false} TakenOnceInWords(n: Node, name: ByteString, x: Lit)
    requires n.CallExpr?
    ensures Command(n).Some? ==> Spare(n.args[0], name, x) && TakenOnceIn(n.args[1..], name, x)
    ensures SourceTarget(n).Some? ==> Spare(n.args[1], name, x) && TakenOnceIn(n.args[2..], name, x)
    decreases n, 0
  {
    if Command(n).Some? {
      TakenOnceAll(n.args[0].children[0].children, name, x);
      WordSpare(n.args[0], name, x);
      TakenOnceAll(n.args[1..], name, x);
    }
    if SourceTarget(n).Some? {
      TakenOnceAll(n.args[1].children[0].children, name, x);
      WordSpare(n.args[1], name, x);
      TakenOnceAll(n.args[2..], name, x);
    }
  }

  lemma {:induction false} TakenOnceAll(ns: seq<Node>, name: ByteString, x: Lit)
    ensures TakenOnceIn(ns, name, x)
    decreases ns, 0
  {
    if ns != [] {
      TakenOnce(ns[0], name, x);
      TakenOnceAll(ns[1..], name, x);
      TakenAppend(Walk(ns[0]), WalkAll(ns[1..]), name, x);
      CountAppend(Lits(ns[0]), LitsAll(ns[1..]), x);
    }
  }

  lemma {:induction false} CountAtMostOnce(lits: seq<Lit>, x: Lit)
    requires forall i, j :: 0 <= i < j < |lits| && lits[i] == x ==> lits[j] != x
    ensures Count(lits, x) <= 1
  {
    if lits != [] {
      CountAtMostOnce(lits[1..], x);
      if lits[0] == x && Count(lits[1..], x) > 0 { CountedIsMember(lits[1..], x); }
    }
  }

  /** The taken literals of two nodes, or two of one, are counted apart. */
  lemma {:induction false} TakenTwice(ns: seq<Node>, name: ByteString, x: Lit, i: nat, j: nat)
    requires i < |ns| && j < |ns| && UsageLit(ns[i], name).Some? && UsageLit(ns[i], name).value.1 == x
    requires TargetLit(ns[j]) == Some(x)
    ensures Taken(ns, name, x) >= 2
  {
    if i > 0 && j > 0 {
      TakenTwice(ns[1..], name, x, i - 1, j - 1);
    } else if i > 0 {
      TakenSome(ns[1..], name, x, i - 1);
    } else if j > 0 {
      TakenSome(ns[1..], name, x, j - 1);
    }
  }

  lemma {:induction false} TakenSome(ns: seq<Node>, name: ByteString, x: Lit, i: nat)
    requires i < |ns| && TakenAt(ns[i], name, x) > 0
    ensures Taken(ns, name, x) > 0
  {
    if i > 0 { TakenSome(ns[1..], name, x, i - 1); }
  }

  lemma {:induction false} TakenIsLit(file: Node, name: ByteString, k: nat, x: Lit)
    requires k < |Walk(file)| && TakenAt(Walk(file)[k], name, x) > 0
    ensures x in Lits(file)
  {
    TakenSome(Walk(file), name, x, k);
    TakenOnce(file, name, x);
    CountedIsMember(Lits(file), x);
  }

  lemma {:induction false} CountedIsMember(lits: seq<Lit>, x: Lit)
    requires Count(lits, x) > 0
    ensures x in lits
  {
    if lits[0] != x { CountedIsMember(lits[1..], x); }
  }

  lemma {:induction false} CursorTargetSource(ns: seq<Node>, off: int) returns (k: nat)
    requires CursorTarget(ns, off).Some?
    ensures k < |ns| && TargetLit(ns[k]).Some?
    ensures TargetLit(ns[k]).value.pos.offset <= off < TargetLit(ns[k]).value.end.offset
  {
    if TargetAtOffset(ns[0], off).Some? && TargetAtOffset(ns[0], off).value != [] {
      k := 0;
    } else {
      k := CursorTargetSource(ns[1..], off);
      k := k + 1;
    }
  }

  /** No literal of a placed file is both a use and a target. */
  lemma {:induction false} UseIsNoTarget(text: ByteString, file: Node, name: ByteString, i: nat, j: nat)
    requires Placed(text, file) && i < |Walk(file)| && j < |Walk(file)| && UsageLit(Walk(file)[i], name).Some?
    requires var x := UsageLit(Walk(file)[i], name).value.1; x.pos.offset < x.end.offset
    ensures TargetLit(Walk(file)[j]) != Some(UsageLit(Walk(file)[i], name).value.1)
  {
    var x, lits := UsageLit(Walk(file)[i], name).value.1, Lits(file);
    if TargetLit(Walk(file)[j]) == Some(x) {
      TakenTwice(Walk(file), name, x, i, j);
      TakenOnce(file, name, x);
      forall a, b | 0 <= a < b < |lits| && lits[a] == x ensures lits[b] != x {
        if lits[b] == x { SameStart(text, lits, a, b); }
      }
      CountAtMostOnce(lits, x);
    }
  }

  lemma UsageNode(text: ByteString, file: Node, name: ByteString, s: nat) returns (k: nat)
    requires name != [] && s in UsageSites(file, name)
    ensures k < |Walk(file)| && UsageLit(Walk(file)[k], name).Some?
    ensures var l := UsageLit(Walk(file)[k], name).value.1; l.pos.offset == s
    ensures var l := UsageLit(Walk(file)[k], name).value.1; Spelled(text, file, name) ==> s + |name| <= l.end.offset
  {
    var i :| 0 <= i < |Usages(file, name)| && Usages(file, name)[i].pos.offset == s;
    k := UsageSource(Walk(file), name, i);
    if Spelled(text, file, name) { UsageSpelled(text, file, name, i); }
  }

  /** Inside a use of a name the cursor is on no source target. */
  lemma {:induction false} NoTargetAtUsage(text: ByteString, file: Node, name: ByteString, s: nat, off: int)
    requires Faithful(text, file, name) && name != [] && s in UsageSites(file, name) && s <= off < s + |name|
    ensures CursorTarget(Walk(file), off) == None
  {
    if CursorTarget(Walk(file), off).Some? {
      var j := CursorTargetSource(Walk(file), off);
      var k := UsageNode(text, file, name, s);
      var x, y := UsageLit(Walk(file)[k], name).value.1, TargetLit(Walk(file)[j]).value;
      UseIsNoTarget(text, file, name, k, j);
      TakenIsLit(file, name, k, x);
      TakenIsLit(file, name, j, y);
      SharedByte(text, Lits(file), x, y, off);
    }
  }

  /** Placed literals that cover the same byte are the same. */
  lemma SharedByte(text: ByteString, lits: seq<Lit>, x: Lit, y: Lit, off: int)
    requires AllPlaced(text, lits) && x in lits && y in lits
    requires x.pos.offset <= off < x.end.offset && y.pos.offset <= off < y.end.offset
    ensures x == y
  {
    var i :| 0 <= i < |lits| && lits[i] == x;
    var j :| 0 <= j < |lits| && lits[j] == y;
  }

  // ----- the word under the cursor

  predicate WordBytes(s: ByteString) {
    forall i :: 0 <= i < |s| ==> IsWordChar(s[i])
  }

  /** If the word at a use is the name, the use is delimited. */
  lemma UseIsRun(text: ByteString, name: ByteString, s: nat, off: nat)
    requires name != [] && s <= off < s + |name| <= |text| && text[s..s + |name|] == name && WordOf(text, off) == name
    ensures IsWordRun(text, off, s, s + |name|) && WordBytes(name)
  {
    WordIsRun(text, off);
    var a, b := WordStart(text, off), WordEnd(text, off);
    assert name == text[a..b];
    forall i | 0 <= i < |name| ensures IsWordChar(name[i]) && name[i] == text[s + i] {
      assert name[i] == text[a + i] && name[i] == text[s..s + |name|][i];
    }
  }

  /**
   The exact condition under which the cursor inside a use is on the name: the name consists of word
   bytes, and none adjoins the use.
   */
  lemma CursorOnUseIff(text: ByteString, name: ByteString, s: nat, off: nat)
    requires s <= off < s + |name| <= |text| && text[s..s + |name|] == name
    ensures WordOf(text, off) == name <==>
      && WordBytes(name)
      && (s == 0 || !IsWordChar(text[s - 1])) && (s + |name| == |text| || !IsWordChar(text[s + |name|]))
  {
    if WordOf(text, off) == name {
      UseIsRun(text, name, s, off);
    } else if WordBytes(name) {
      forall k | s <= k < s + |name| ensures IsWordChar(text[k]) {
        assert text[k] == name[k - s];
      }
      WordIsRun(text, off);
      if IsWordRun(text, off, s, s + |name|) {
        WordRunUnique(text, off, s, s + |name|, WordStart(text, off), WordEnd(text, off));
      }
    }
  }

  /** In "$foo-bar" the use of `foo` is not on the name `foo`. */
  lemma CursorBeyondName()
    ensures var text: ByteString := [36, 102, 111, 111, 45, 98, 97, 114];
      text[1..4] == [102, 111, 111] && WordOf(text, 1) != [102, 111, 111]
  {
    var text: ByteString := [36, 102, 111, 111, 45, 98, 97, 114];
    CursorOnUseIff(text, [102, 111, 111], 1, 1);
  }

  lemma SiteEnds(text: ByteString, sites: set<nat>, name: ByteString, t: nat)
    requires Sites(text, sites, name) && t in sites && WordBytes(name)
    ensures t + |name| <= |text| && IsWordChar(text[t]) && IsWordChar(text[t + |name| - 1])
  {
    var w := |name|;
    assert text[t..t + w] == name;
    assert text[t..t + w][0] == text[t] && text[t..t + w][w - 1] == text[t + w - 1];
  }

  /** A delimited use has no other use at either end. */
  lemma UseStandsAlone(text: ByteString, sites: set<nat>, name: ByteString, s: nat, off: nat)
    requires Sites(text, sites, name) && s in sites && IsWordRun(text, off, s, s + |name|) && WordBytes(name)
    ensures s > 0 ==> Kept(sites, |name|, s - 1) && s - 1 !in sites
    ensures s + |name| < |text| ==> Kept(sites, |name|, s + |name| + 1) && s + |name| !in sites
  {
    var w := |name|;
    forall t | t in sites
      ensures t < s ==> t + w < s
      ensures t > s ==> t > s + w
    {
      SiteEnds(text, sites, name, t);
      if t < s { assert t + w <= s; }
      if t > s { assert s + w <= t; }
    }
  }

  /** After the rename the word at the image of a delimited use is the new name. */
  lemma WordAtImage(text: ByteString, sites: set<nat>, name: ByteString, newName: ByteString, s: nat, off: nat,
                    moved: nat)
    requires Sites(text, sites, name) && s in sites && s <= off < s + |name| && WordOf(text, off) == name
    requires WordBytes(newName)
    requires var t := Shift(text, sites, name, newName, s); t <= moved < t + |newName|
    ensures WordOf(Replaced(text, sites, name, newName), moved) == newName
  {
    var r, t := Replaced(text, sites, name, newName), Shift(text, sites, name, newName, s);
    UseIsRun(text, name, s, off);
    UseStandsAlone(text, sites, name, s, off);
    SiteImage(text, sites, name, newName, s);
    forall k | t <= k < t + |newName| ensures IsWordChar(r[k]) {
      assert r[k] == newName[k - t];
    }
    EndsOfImage(text, sites, name, newName, s);
    assert IsWordRun(r, moved, t, t + |newName|);
    WordIsRun(r, moved);
    WordRunUnique(r, moved, t, t + |newName|, WordStart(r, moved), WordEnd(r, moved));
  }

  /** The bytes at either end of the image of a site that stands alone are those at the ends of the site. */
  lemma EndsOfImage(text: ByteString, sites: set<nat>, name: ByteString, newName: ByteString, s: nat)
    requires Sites(text, sites, name) && s in sites
    requires s > 0 ==> Kept(sites, |name|, s - 1) && s - 1 !in sites
    requires s + |name| < |text| ==> s + |name| !in sites
    ensures var r, t := Replaced(text, sites, name, newName), Shift(text, sites, name, newName, s);
      && t + |newName| <= |r|
      && (t == 0 <==> s == 0) && (t > 0 ==> r[t - 1] == text[s - 1])
      && (t + |newName| == |r| <==> s + |name| == |text|)
      && (t + |newName| < |r| ==> r[t + |newName|] == text[s + |name|])
  {
    SiteImage(text, sites, name, newName, s);
    SiteKept(text, sites, name, s);
    if s > 0 { ByteImage(text, sites, name, newName, s - 1); }
    if s + |name| < |text| { ByteImage(text, sites, name, newName, s + |name|); }
  }

  // ----- declarations

  function MovedDeclaration(s: Snapshot, name: ByteString, newName: ByteString, h: DeclarationHit): DeclarationHit
    requires name != []
  {
    if h.uri in s.files.index then
      var move := Mover(TextFor(s.files, s.disk, h.uri), s.files.index[h.uri], name, newName);
      DeclarationHit(h.uri, Declaration(newName, h.declaration.kind, move(h.declaration.pos), move(h.declaration.end)))
    else h
  }

  /** The first declaration of the old name becomes the first one of the new name. */
  lemma FirstMoved(ds: seq<Declaration>, name: ByteString, newName: ByteString, move: Pos -> Pos, d: Declaration)
    requires IsFirst(ds, name, d) && forall c :: c in ds ==> c.name != newName
    ensures IsFirst(MoveDeclarations(ds, name, newName, move), newName,
                    Declaration(newName, d.kind, move(d.pos), move(d.end)))
  {
    var k :| 0 <= k < |ds| && ds[k] == d && forall j :: 0 <= j < k ==> ds[j].name != name;
    var moved := MoveDeclarations(ds, name, newName, move);
    assert moved[k] == Declaration(newName, d.kind, move(d.pos), move(d.end));
    forall j | 0 <= j < k ensures moved[j].name != newName { assert ds[j] in ds; }
  }

  lemma DeclaresMoved(ds: seq<Declaration>, name: ByteString, newName: ByteString, move: Pos -> Pos)
    requires forall c :: c in ds ==> c.name != newName
    ensures Declares(MoveDeclarations(ds, name, newName, move), newName) <==> Declares(ds, name)
  {
    var moved := MoveDeclarations(ds, name, newName, move);
    if Declares(ds, name) {
      var k :| 0 <= k < |ds| && ds[k].name == name;
      assert moved[k].name == newName;
    }
    if Declares(moved, newName) {
      var k :| 0 <= k < |moved| && moved[k].name == newName;
      assert ds[k] in ds;
    }
  }

  /** A name that a file does not use is not declared in it. */
  lemma NotDeclared(file: Node, name: ByteString)
    requires name != [] && Usages(file, name) == []
    ensures forall d :: d in Declarations(file) ==> d.name != name
  {
    WrittenIffDeclared(file, name);
    forall d | d in Declarations(file) ensures d.name != name {
      var k :| 0 <= k < |Declarations(file)| && Declarations(file)[k] == d;
    }
  }

  /** The snapshot after the edits of a rename of `name` in the component of `u` have been made everywhere. */
  ghost predicate RenamedSnapshot(s: Snapshot, t: Snapshot, u: Uri, name: ByteString, newName: ByteString)
    requires name != []
  {
    var files := Component(s.files.index, s.resolve, u);
    && t.enc == s.enc && t.resolve == s.resolve
    && t.files.index == RenamedEntries(s.files.index, Texts(s.files, s.disk), files, name, newName)
    && (forall v :: v in files && v in s.files.index ==>
          TextFor(t.files, t.disk, v) == RenamedText(TextFor(s.files, s.disk, v), s.files.index[v], name, newName))
  }

  /** Every file of the component places its declarations and spells the name where it uses it. */
  ghost predicate ComponentFaithful(s: Snapshot, u: Uri, name: ByteString) {
    && ComponentPlaced(s, u)
    && forall v :: v in Component(s.files.index, s.resolve, u) && v in s.files.index ==>
         Faithful(TextFor(s.files, s.disk, v), s.files.index[v], name)
  }

  /** The component does not use the new name, and the rename neither makes nor removes source commands. */
  ghost predicate FreshRename(s: Snapshot, u: Uri, name: ByteString, newName: ByteString) {
    && name != [] && newName != [] && name != newName && WordBytes(newName)
    && (IsSourceCommand(name) <==> IsSourceCommand(newName))
    && forall v :: v in Component(s.files.index, s.resolve, u) && v in s.files.index ==>
                     Usages(s.files.index[v], newName) == []
  }

  /** The declarations of one file of the component, before and after. */
  lemma DeclarationsMoved(s: Snapshot, t: Snapshot, u: Uri, name: ByteString, newName: ByteString, v: Uri)
    requires FreshRename(s, u, name, newName) && RenamedSnapshot(s, t, u, name, newName)
    requires v in Component(s.files.index, s.resolve, u) && v in s.files.index
    ensures v in t.files.index
    ensures t.files.index[v] == RenamedFile(TextFor(s.files, s.disk, v), s.files.index[v], name, newName)
    ensures Declarations(t.files.index[v])
         == MoveDeclarations(Declarations(s.files.index[v]), name, newName,
                             Mover(TextFor(s.files, s.disk, v), s.files.index[v], name, newName))
    ensures forall d :: d in Declarations(s.files.index[v]) ==> d.name != newName
  {
    DeclarationsOfRenamedFile(TextFor(s.files, s.disk, v), s.files.index[v], name, newName);
    NotDeclared(s.files.index[v], newName);
  }

  lemma SameComponent(s: Snapshot, t: Snapshot, u: Uri, name: ByteString, newName: ByteString)
    requires FreshRename(s, u, name, newName) && RenamedSnapshot(s, t, u, name, newName)
    ensures Component(t.files.index, t.resolve, u) == Component(s.files.index, s.resolve, u)
    ensures t.files.index.Keys == s.files.index.Keys
  {
    ComponentsKept(s.files.index, Texts(s.files, s.disk), Component(s.files.index, s.resolve, u), name, newName,
                   s.resolve, u);
  }

  /** A declaration elsewhere is found before exactly when its image is found after. */
  lemma ForeignMoved(s: Snapshot, t: Snapshot, u: Uri, name: ByteString, newName: ByteString, h: DeclarationHit)
    requires FreshRename(s, u, name, newName) && RenamedSnapshot(s, t, u, name, newName) && ForeignHit(s, u, name, h)
    ensures ForeignHit(t, u, newName, MovedDeclaration(s, name, newName, h))
  {
    SameComponent(s, t, u, name, newName);
    DeclarationsMoved(s, t, u, name, newName, h.uri);
    var ds := Declarations(s.files.index[h.uri]);
    var i :| 0 <= i < |ds| && ds[i] == h.declaration;
    assert Declarations(t.files.index[h.uri])[i] == MovedDeclaration(s, name, newName, h).declaration;
  }

  lemma ForeignCameFrom(s: Snapshot, t: Snapshot, u: Uri, name: ByteString, newName: ByteString, g: DeclarationHit)
    returns (h: DeclarationHit)
    requires FreshRename(s, u, name, newName) && RenamedSnapshot(s, t, u, name, newName) && ForeignHit(t, u, newName, g)
    ensures ForeignHit(s, u, name, h) && g == MovedDeclaration(s, name, newName, h)
  {
    SameComponent(s, t, u, name, newName);
    DeclarationsMoved(s, t, u, name, newName, g.uri);
    var ds := Declarations(s.files.index[g.uri]);
    var i :| 0 <= i < |ds| && Declarations(t.files.index[g.uri])[i] == g.declaration;
    assert ds[i] in ds;
    h := DeclarationHit(g.uri, ds[i]);
  }

  /** The order of declarations survives the edits. */
  lemma OrderKept(s: Snapshot, u: Uri, name: ByteString, newName: ByteString, g: DeclarationHit, h: DeclarationHit)
    requires FreshRename(s, u, name, newName) && ComponentFaithful(s, u, name) && ForeignHit(s, u, name, g)
    requires ForeignHit(s, u, name, h)
    ensures HitBefore(MovedDeclaration(s, name, newName, g), MovedDeclaration(s, name, newName, h)) <==> HitBefore(g, h)
  {
    if g.uri == h.uri {
      var text, file := TextFor(s.files, s.disk, g.uri), s.files.index[g.uri];
      DeclarationsOfFileApart(text, file);
      StartsInOrder(text, file, name, newName, Lit(name, g.declaration.pos, g.declaration.end),
                    Lit(name, h.declaration.pos, h.declaration.end));
    }
  }

  lemma {:induction false} StartsInOrder(text: ByteString, file: Node, name: ByteString, newName: ByteString, l: Lit,
                                         m: Lit)
    requires Faithful(text, file, name) && name != [] && newName != [] && l in Lits(file) && m in Lits(file)
    ensures var move := Mover(text, file, name, newName);
      move(l.pos).offset < move(m.pos).offset <==> l.pos.offset < m.pos.offset
  {
    var i :| 0 <= i < |Lits(file)| && Lits(file)[i] == l;
    var j :| 0 <= j < |Lits(file)| && Lits(file)[j] == m;
    EndsKept(text, file, name, i);
    EndsKept(text, file, name, j);
    RenamedLitEnds(text, file, name, newName, i);
    RenamedLitEnds(text, file, name, newName, j);
    var sites := UsageSites(file, name);
    if l.pos.offset < m.pos.offset { ShiftMonotone(text, sites, name, newName, l.pos.offset, m.pos.offset); }
    if m.pos.offset < l.pos.offset { ShiftMonotone(text, sites, name, newName, m.pos.offset, l.pos.offset); }
  }

  /** The least declaration elsewhere goes to the least one. */
  lemma LeastMoved(s: Snapshot, t: Snapshot, u: Uri, name: ByteString, newName: ByteString, h: DeclarationHit)
    requires FreshRename(s, u, name, newName) && RenamedSnapshot(s, t, u, name, newName)
    requires ComponentFaithful(s, u, name)
    requires LeastForeignHit(s, u, name, h)
    ensures LeastForeignHit(t, u, newName, MovedDeclaration(s, name, newName, h))
  {
    ForeignMoved(s, t, u, name, newName, h);
    forall g | ForeignHit(t, u, newName, g) ensures !HitBefore(g, MovedDeclaration(s, name, newName, h)) {
      var f := ForeignCameFrom(s, t, u, name, newName, g);
      OrderKept(s, u, name, newName, f, h);
    }
  }

  // ----- the whole request

  /** `h` is the declaration that a name at `u` resolves to. */
  ghost predicate ResolvesTo(s: Snapshot, u: Uri, file: Node, name: ByteString, h: DeclarationHit) {
    if Declares(Declarations(file), name) then h.uri == u && IsFirst(Declarations(file), name, h.declaration)
    else LeastForeignHit(s, u, name, h)
  }

  /** The cursor is at a delimited use of the name in an open document that is indexed. */
  ghost predicate AtUse(s: Snapshot, u: Uri, name: ByteString, site: nat, off: int) {
    && u in s.files.docs && u in s.files.index && s.files.docs[u].ast == Some(s.files.index[u])
    && name != [] && site in UsageSites(s.files.index[u], name) && site <= off < site + |name|
    && WordOf(s.files.docs[u].text, off) == name
  }

  /** At a delimited use the answer is the location of the declaration that the name resolves to. */
  lemma DefinitionAtUse(s: Snapshot, u: Uri, pos: Position, name: ByteString, site: nat, answer: Option<Location>)
    requires u in s.files.docs && AtUse(s, u, name, site, OffsetFor(s.files.docs[u].text, s.enc, pos))
    requires ComponentFaithful(s, u, name) && IsDefinition(s, u, pos, answer)
    ensures Resolves(s, u, s.files.index[u], name, answer)
    ensures answer.Some? ==>
              exists h :: ResolvesTo(s, u, s.files.index[u], name, h)
                && answer == Some(DeclarationLocation(s, h.uri, h.declaration))
  {
    var text, file := s.files.docs[u].text, s.files.index[u];
    ComponentIsLeast(s.files.index, s.resolve, u);
    NoTargetAtUsage(text, file, name, site, OffsetFor(text, s.enc, pos));
    if Declares(Declarations(file), name) {
      var d :| IsFirst(Declarations(file), name, d) && answer == Some(DeclarationLocation(s, u, d));
      assert ResolvesTo(s, u, file, name, DeclarationHit(u, d));
    }
  }

  lemma ResolvesMoved(s: Snapshot, t: Snapshot, u: Uri, name: ByteString, newName: ByteString, h: DeclarationHit)
    requires FreshRename(s, u, name, newName) && RenamedSnapshot(s, t, u, name, newName)
    requires ComponentFaithful(s, u, name)
    requires u in s.files.index && ResolvesTo(s, u, s.files.index[u], name, h)
    ensures u in t.files.index && ResolvesTo(t, u, t.files.index[u], newName, MovedDeclaration(s, name, newName, h))
  {
    ComponentIsLeast(s.files.index, s.resolve, u);
    DeclarationsMoved(s, t, u, name, newName, u);
    var ds, move := Declarations(s.files.index[u]), Mover(TextFor(s.files, s.disk, u), s.files.index[u], name, newName);
    DeclaresMoved(ds, name, newName, move);
    if Declares(ds, name) {
      FirstMoved(ds, name, newName, move, h.declaration);
    } else {
      LeastMoved(s, t, u, name, newName, h);
    }
  }

  lemma {:induction false} ResolvesCameFrom(s: Snapshot, t: Snapshot, u: Uri, name: ByteString, newName: ByteString,
                                            g: DeclarationHit)
    requires FreshRename(s, u, name, newName) && RenamedSnapshot(s, t, u, name, newName)
    requires u in s.files.index && u in t.files.index && ResolvesTo(t, u, t.files.index[u], newName, g)
    ensures Declares(Declarations(s.files.index[u]), name) || exists h :: ForeignHit(s, u, name, h)
  {
    ComponentIsLeast(s.files.index, s.resolve, u);
    DeclarationsMoved(s, t, u, name, newName, u);
    var ds, move := Declarations(s.files.index[u]), Mover(TextFor(s.files, s.disk, u), s.files.index[u], name, newName);
    DeclaresMoved(ds, name, newName, move);
    if !Declares(ds, name) {
      var h := ForeignCameFrom(s, t, u, name, newName, g);
    }
  }

  lemma AnswerIs(s: Snapshot, u: Uri, file: Node, name: ByteString, h: DeclarationHit, answer: Option<Location>)
    requires ComponentFaithful(s, u, name) && Resolves(s, u, file, name, answer) && ResolvesTo(s, u, file, name, h)
    ensures answer == Some(DeclarationLocation(s, h.uri, h.declaration))
  {
    if Declares(Declarations(file), name) {
      var d :| IsFirst(Declarations(file), name, d) && answer == Some(DeclarationLocation(s, u, d));
      FirstUnique(Declarations(file), name, d, h.declaration);
    } else {
      assert ForeignHit(s, u, name, h);
      var g :| LeastForeignHit(s, u, name, g) && answer == Some(DeclarationLocation(s, g.uri, g.declaration));
      LeastForeignHitUnique(s, u, name, g, h);
    }
  }

  /** After the rename the cursor at the image is at a delimited use of the new name, and the files are faithful. */
  lemma AtUseMoved(s: Snapshot, t: Snapshot, u: Uri, name: ByteString, newName: ByteString, site: nat, off: int,
                   moved: int)
    requires FreshRename(s, u, name, newName) && RenamedSnapshot(s, t, u, name, newName)
    requires ComponentFaithful(s, u, name)
    requires AtUse(s, u, name, site, off)
    requires u in t.files.docs && u in t.files.index && t.files.docs[u].ast == Some(t.files.index[u])
    requires site <= |s.files.docs[u].text|
    requires var k := Shift(s.files.docs[u].text, UsageSites(s.files.index[u], name), name, newName, site);
      k <= moved < k + |newName|
    ensures var k := Shift(s.files.docs[u].text, UsageSites(s.files.index[u], name), name, newName, site);
      AtUse(t, u, newName, k, moved)
  {
    var text, file := s.files.docs[u].text, s.files.index[u];
    ComponentIsLeast(s.files.index, s.resolve, u);
    DeclarationsMoved(s, t, u, name, newName, u);
    SitesOfRenamedFile(text, file, name, newName);
    WordAtImage(text, UsageSites(file, name), name, newName, site, off, moved);
  }

  lemma FaithfulMoved(s: Snapshot, t: Snapshot, u: Uri, name: ByteString, newName: ByteString)
    requires FreshRename(s, u, name, newName) && RenamedSnapshot(s, t, u, name, newName)
    requires ComponentFaithful(s, u, name)
    ensures ComponentFaithful(t, u, newName)
  {
    SameComponent(s, t, u, name, newName);
    forall v | v in Component(s.files.index, s.resolve, u) && v in s.files.index
      ensures Faithful(TextFor(t.files, t.disk, v), t.files.index[v], newName)
      ensures DeclarationsPlaced(TextFor(t.files, t.disk, v), t.files.index[v])
    {
      DeclarationsMoved(s, t, u, name, newName, v);
      RenamedFileFaithful(TextFor(s.files, s.disk, v), s.files.index[v], name, newName, newName);
      DeclarationsStayPlaced(TextFor(s.files, s.disk, v), s.files.index[v], name, newName);
    }
  }

  /** Declared names still cover something after the rename. */
  lemma DeclarationsStayPlaced(text: ByteString, file: Node, name: ByteString, newName: ByteString)
    requires DeclarationsPlaced(text, file) && Faithful(text, file, name) && name != [] && newName != []
    ensures NamesNonempty(MoveDeclarations(Declarations(file), name, newName, Mover(text, file, name, newName)))
  {
    DeclarationsOfFileApart(text, file);
    var ds, move := Declarations(file), Mover(text, file, name, newName);
    forall i | 0 <= i < |ds| ensures move(ds[i].pos).offset < move(ds[i].end).offset {
      assert ds[i] in ds;
      var k :| 0 <= k < |Lits(file)| && Lits(file)[k] == Lit(ds[i].name, ds[i].pos, ds[i].end);
      EndsKept(text, file, name, k);
      RenamedLitEnds(text, file, name, newName, k);
      ShiftMonotone(text, UsageSites(file, name), name, newName, ds[i].pos.offset, ds[i].end.offset);
    }
  }

  /**
   Definition commutes with rename.  Ask at a delimited use of a name, rename it throughout the
   component to an unused name, and ask again at the image of the use: there is an answer after
   exactly when there was one before, and it is the image of the declaration found before.
   */
  lemma DefinitionCommutesWithRename(s: Snapshot, t: Snapshot, u: Uri, name: ByteString, newName: ByteString, site: nat,
                                     pos: Position, moved: Position, before: Option<Location>, after: Option<Location>)
    requires FreshRename(s, u, name, newName) && RenamedSnapshot(s, t, u, name, newName)
    requires ComponentFaithful(s, u, name)
    requires u in s.files.docs && AtUse(s, u, name, site, OffsetFor(s.files.docs[u].text, s.enc, pos))
    requires u in t.files.docs && u in t.files.index && t.files.docs[u].ast == Some(t.files.index[u])
    requires var text := s.files.docs[u].text;
      site <= |text| &&
      var k := Shift(text, UsageSites(s.files.index[u], name), name, newName, site);
      k <= OffsetFor(t.files.docs[u].text, t.enc, moved) < k + |newName|
    requires IsDefinition(s, u, pos, before) && IsDefinition(t, u, moved, after)
    ensures before.Some? <==> after.Some?
    ensures before.Some? ==>
              exists h :: ResolvesTo(s, u, s.files.index[u], name, h)
                && before == Some(DeclarationLocation(s, h.uri, h.declaration))
                && after == Some(DeclarationLocation(t, h.uri, MovedDeclaration(s, name, newName, h).declaration))
  {
    var text := s.files.docs[u].text;
    var image := Shift(text, UsageSites(s.files.index[u], name), name, newName, site);
    AtUseMoved(s, t, u, name, newName, site, OffsetFor(text, s.enc, pos),
               OffsetFor(t.files.docs[u].text, t.enc, moved));
    FaithfulMoved(s, t, u, name, newName);
    DefinitionAtUse(s, u, pos, name, site, before);
    DefinitionAtUse(t, u, moved, newName, image, after);
    if before.Some? {
      var h :| ResolvesTo(s, u, s.files.index[u], name, h)
        && before == Some(DeclarationLocation(s, h.uri, h.declaration));
      ResolvesMoved(s, t, u, name, newName, h);
      AnswerIs(t, u, t.files.index[u], newName, MovedDeclaration(s, name, newName, h), after);
    } else if after.Some? {
      var g :| ResolvesTo(t, u, t.files.index[u], newName, g);
      ResolvesCameFrom(s, t, u, name, newName, g);
      assert false;
    }
  }
}
