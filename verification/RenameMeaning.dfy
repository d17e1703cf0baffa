/**
 What a rename does to the meaning of a component: which names are used where, which files source
 which, and that it can be undone.
 */
module RenameMeaning {
  import opened Bytes
  import opened Positions
  import opened Syntax
  import opened Analyser
  import opened SourceGraph
  import opened Edits
  import opened RenameTree
  import opened RenameText

  // ----- usages and declarations of the renamed file

  function MoveUsages(us: seq<Usage>, x: ByteString, move: Pos -> Pos): (r: seq<Usage>)
    ensures |r| == |us|
  {
    seq(|us|, i requires 0 <= i < |us| => Usage(x, us[i].kind, move(us[i].pos), move(us[i].end)))
  }

  function MoveDeclarations(ds: seq<Declaration>, name: ByteString, newName: ByteString,
                            move: Pos -> Pos): (r: seq<Declaration>)
    ensures |r| == |ds|
  {
    seq(|ds|, i requires 0 <= i < |ds| =>
      Declaration(if ds[i].name == name then newName else ds[i].name, ds[i].kind, move(ds[i].pos), move(ds[i].end)))
  }

  /** `ms` are the nodes `ns` as seen after the rename and the move. */
  predicate SeenRenamed(ns: seq<Node>, ms: seq<Node>, name: ByteString, newName: ByteString, move: Pos -> Pos) {
    && |ms| == |ns|
    && forall i :: 0 <= i < |ns| ==> ViewOf(ms[i]) == RelocateView(RenameView(ViewOf(ns[i]), name, newName), move)
  }

  /** The usages of `x` after the rename, from those before it. */
  function UsagesAfter(ns: seq<Node>, name: ByteString, newName: ByteString, move: Pos -> Pos,
                       x: ByteString): seq<Usage>
  {
    if x == name then []
    else MoveUsages(UsagesIn(ns, if x == newName then name else x), x, move)
  }

  lemma UsageSeen(n: Node, m: Node, name: ByteString, newName: ByteString, move: Pos -> Pos, x: ByteString)
    requires ViewOf(m) == RelocateView(RenameView(ViewOf(n), name, newName), move)
    requires name != newName && UsageAt(n, newName) == []
    ensures UsageAt(m, x) == if x == name then [] else MoveUsages(UsageAt(n, if x == newName then name else x), x, move)
  {
  }

  lemma MoveUsagesAppend(a: seq<Usage>, b: seq<Usage>, x: ByteString, move: Pos -> Pos)
    ensures MoveUsages(a + b, x, move) == MoveUsages(a, x, move) + MoveUsages(b, x, move)
  {
  }

  lemma {:induction false} UsagesSeen(ns: seq<Node>, ms: seq<Node>, name: ByteString, newName: ByteString,
                                      move: Pos -> Pos, x: ByteString)
    requires SeenRenamed(ns, ms, name, newName, move) && name != newName && UsagesIn(ns, newName) == []
    ensures UsagesIn(ms, x) == UsagesAfter(ns, name, newName, move, x)
  {
    if ns != [] {
      var k := |ns| - 1;
      var y := if x == newName then name else x;
      UsagesSeen(ns[..k], ms[..k], name, newName, move, x);
      UsageSeen(ns[k], ms[k], name, newName, move, x);
      MoveUsagesAppend(UsagesIn(ns[..k], y), UsageAt(ns[k], y), x, move);
    }
  }

  /**
   After a rename to a name that the file does not use, the file has no usage of the old name, its
   usages of the new name are the old sites with the same kinds, and every other name is used where
   it was, up to the move.
   */
  lemma UsagesOfRenamedFile(text: ByteString, file: Node, name: ByteString, newName: ByteString, x: ByteString)
    requires name != [] && newName != [] && name != newName && Usages(file, newName) == [] && x != []
    ensures var renamed, move := RenamedFile(text, file, name, newName), Mover(text, file, name, newName);
      Usages(renamed, x) == if x == name then []
                            else if x == newName then MoveUsages(Usages(file, name), newName, move)
                            else MoveUsages(Usages(file, x), x, move)
  {
    var move := Mover(text, file, name, newName);
    ViewInRenamed(file, name, newName, move);
    UsagesSeen(Walk(file), Walk(RenamedFile(text, file, name, newName)), name, newName, move, x);
  }

  lemma DeclarationSeen(n: Node, m: Node, name: ByteString, newName: ByteString, move: Pos -> Pos)
    requires ViewOf(m) == RelocateView(RenameView(ViewOf(n), name, newName), move)
    ensures DeclarationAt(m) == MoveDeclarations(DeclarationAt(n), name, newName, move)
  {
  }

  lemma MoveDeclarationsAppend(a: seq<Declaration>, b: seq<Declaration>, name: ByteString, newName: ByteString,
                               move: Pos -> Pos)
    ensures MoveDeclarations(a + b, name, newName, move)
         == MoveDeclarations(a, name, newName, move) + MoveDeclarations(b, name, newName, move)
  {
  }

  lemma {:induction false} DeclarationsSeen(ns: seq<Node>, ms: seq<Node>, name: ByteString, newName: ByteString,
                                            move: Pos -> Pos)
    requires SeenRenamed(ns, ms, name, newName, move)
    ensures DeclarationsIn(ms) == MoveDeclarations(DeclarationsIn(ns), name, newName, move)
  {
    if ns != [] {
      var k := |ns| - 1;
      DeclarationsSeen(ns[..k], ms[..k], name, newName, move);
      DeclarationSeen(ns[k], ms[k], name, newName, move);
      MoveDeclarationsAppend(DeclarationsIn(ns[..k]), DeclarationAt(ns[k]), name, newName, move);
    }
  }

  /** The declarations of the renamed file are the old ones, in order, renamed and moved. */
  lemma DeclarationsOfRenamedFile(text: ByteString, file: Node, name: ByteString, newName: ByteString)
    requires name != []
    ensures Declarations(RenamedFile(text, file, name, newName))
         == MoveDeclarations(Declarations(file), name, newName, Mover(text, file, name, newName))
  {
    var move := Mover(text, file, name, newName);
    ViewInRenamed(file, name, newName, move);
    DeclarationsSeen(Walk(file), Walk(RenamedFile(text, file, name, newName)), name, newName, move);
  }

  // ----- the source graph

  predicate IsSourceCommand(name: ByteString) {
    name == SOURCE || name == DOT
  }

  lemma TargetSeen(n: Node, m: Node, name: ByteString, newName: ByteString, move: Pos -> Pos)
    requires ViewOf(m) == RelocateView(RenameView(ViewOf(n), name, newName), move)
    requires IsSourceCommand(name) <==> IsSourceCommand(newName)
    ensures SourceTarget(m) == SourceTarget(n)
  {
    TargetInView(n);
    TargetInView(m);
  }

  /** Whether a node sources something shows in its view. */
  lemma TargetInView(n: Node)
    ensures SourceTarget(n) ==
      match ViewOf(n)
      case Call(Some(command), Some(argument)) => if IsSourceCommand(command.value) then Some(argument.value) else None
      case _ => None
  {
  }

  lemma {:induction false} SourcedSeen(ns: seq<Node>, ms: seq<Node>, name: ByteString, newName: ByteString,
                                       move: Pos -> Pos, base: Uri, resolve: Resolver)
    requires SeenRenamed(ns, ms, name, newName, move) && (IsSourceCommand(name) <==> IsSourceCommand(newName))
    ensures SourcedIn(ms, base, resolve) == SourcedIn(ns, base, resolve)
  {
    if ns != [] {
      var k := |ns| - 1;
      SourcedSeen(ns[..k], ms[..k], name, newName, move, base, resolve);
      TargetSeen(ns[k], ms[k], name, newName, move);
    }
  }

  /** The index after a rename in the files of a component whose texts are known. */
  function RenamedEntries(entries: Entries, texts: map<Uri, ByteString>, files: set<Uri>, name: ByteString,
                          newName: ByteString): Entries
    requires name != []
  {
    map u | u in entries ::
      if u in files && u in texts then RenamedFile(texts[u], entries[u], name, newName) else entries[u]
  }

  lemma SameEdgesSameComponents(entries: Entries, other: Entries, resolve: Resolver, from: Uri)
    requires forall a, b :: Neighbour(entries, resolve, a, b) <==> Neighbour(other, resolve, a, b)
    ensures Component(entries, resolve, from) == Component(other, resolve, from)
  {
    var c, d := Component(entries, resolve, from), Component(other, resolve, from);
    ComponentIsLeast(entries, resolve, from);
    ComponentIsLeast(other, resolve, from);
    assert Closed(entries, resolve, d) && Closed(other, resolve, c);
  }

  lemma SourcedKept(entries: Entries, texts: map<Uri, ByteString>, files: set<Uri>, name: ByteString,
                    newName: ByteString, resolve: Resolver, u: Uri)
    requires name != [] && (IsSourceCommand(name) <==> IsSourceCommand(newName))
    ensures Sourced(RenamedEntries(entries, texts, files, name, newName), u, resolve) == Sourced(entries, u, resolve)
  {
    if u in entries && u in files && u in texts {
      var move := Mover(texts[u], entries[u], name, newName);
      ViewInRenamed(entries[u], name, newName, move);
      SourcedSeen(Walk(entries[u]), Walk(RenamedFile(texts[u], entries[u], name, newName)), name, newName, move, u,
                  resolve);
    }
  }

  /** A rename that neither makes nor removes source commands leaves every component as it was. */
  lemma ComponentsKept(entries: Entries, texts: map<Uri, ByteString>, files: set<Uri>, name: ByteString,
                       newName: ByteString, resolve: Resolver, from: Uri)
    requires name != [] && (IsSourceCommand(name) <==> IsSourceCommand(newName))
    ensures Component(RenamedEntries(entries, texts, files, name, newName), resolve, from)
        == Component(entries, resolve, from)
  {
    var after := RenamedEntries(entries, texts, files, name, newName);
    forall a, b ensures Neighbour(entries, resolve, a, b) <==> Neighbour(after, resolve, a, b) {
      SourcedKept(entries, texts, files, name, newName, resolve, a);
      SourcedKept(entries, texts, files, name, newName, resolve, b);
    }
    SameEdgesSameComponents(entries, after, resolve, from);
  }

  // ----- undoing a rename

  /** A usage of the new name sits at the image of an old site. */
  lemma RenamedUsageSite(text: ByteString, file: Node, name: ByteString, newName: ByteString, i: nat)
    requires Faithful(text, file, name) && name != [] && newName != [] && name != newName && Usages(file, newName) == []
    requires i < |Usages(file, name)|
    ensures var renamed, u := RenamedFile(text, file, name, newName), Usages(file, name)[i];
      && i < |Usages(renamed, newName)| && u.pos.offset in UsageSites(file, name)
      && Usages(renamed, newName)[i].pos.offset
         == Shift(text, UsageSites(file, name), name, newName, u.pos.offset)
  {
    UsagesOfRenamedFile(text, file, name, newName, newName);
    var k := UsageIsLit(file, name, i);
    RenamedLitEnds(text, file, name, newName, k);
  }

  /** The usages of the new name sit at the images of the old sites. */
  lemma SitesOfRenamedFile(text: ByteString, file: Node, name: ByteString, newName: ByteString)
    requires Faithful(text, file, name) && name != [] && newName != [] && name != newName && Usages(file, newName) == []
    ensures Sites(text, UsageSites(file, name), name)
    ensures UsageSites(RenamedFile(text, file, name, newName), newName)
         == ShiftedSites(text, UsageSites(file, name), name, newName)
  {
    var renamed, us := RenamedFile(text, file, name, newName), Usages(file, name);
    UsagesAreSites(text, file, name);
    UsagesOfRenamedFile(text, file, name, newName, newName);
    var sites := UsageSites(file, name);
    forall t | t in UsageSites(renamed, newName) ensures t in ShiftedSites(text, sites, name, newName) {
      var i :| 0 <= i < |us| && Usages(renamed, newName)[i].pos.offset == t;
      RenamedUsageSite(text, file, name, newName, i);
    }
    forall t | t in ShiftedSites(text, sites, name, newName) ensures t in UsageSites(renamed, newName) {
      var s :| s in sites && t == Shift(text, sites, name, newName, s);
      var i :| 0 <= i < |us| && us[i].pos.offset == s;
      RenamedUsageSite(text, file, name, newName, i);
    }
  }

  /** Renaming back restores the text. */
  lemma RenameBackText(text: ByteString, file: Node, name: ByteString, newName: ByteString)
    requires Faithful(text, file, name) && name != [] && newName != [] && name != newName && Usages(file, newName) == []
    ensures RenamedText(RenamedText(text, file, name, newName), RenamedFile(text, file, name, newName), newName, name)
        == text
  {
    SitesOfRenamedFile(text, file, name, newName);
    ReplaceUndo(text, UsageSites(file, name), name, newName);
  }

  /** The image of a kept offset is kept by the way back. */
  lemma ImageKept(text: ByteString, sites: set<nat>, name: ByteString, newName: ByteString, off: nat)
    requires Sites(text, sites, name) && newName != [] && off <= |text| && Kept(sites, |name|, off)
    ensures Kept(ShiftedSites(text, sites, name, newName), |newName|, Shift(text, sites, name, newName, off))
  {
    var t := Shift(text, sites, name, newName, off);
    forall i | i in ShiftedSites(text, sites, name, newName) ensures t <= i || i + |newName| <= t {
      var s :| s in sites && i == Shift(text, sites, name, newName, s);
      SiteKept(text, sites, name, s);
      SiteImage(text, sites, name, newName, s);
      if off < s { ShiftMonotone(text, sites, name, newName, off, s); }
      if s + |name| < off { ShiftMonotone(text, sites, name, newName, s + |name|, off); }
    }
  }

  /** A kept offset comes back to where it was. */
  lemma ShiftBack(text: ByteString, sites: set<nat>, name: ByteString, newName: ByteString, off: nat)
    requires Sites(text, sites, name) && newName != [] && off <= |text| && Kept(sites, |name|, off)
    ensures var r, t := Replaced(text, sites, name, newName), Shift(text, sites, name, newName, off);
      t <= |r| && Shift(r, ShiftedSites(text, sites, name, newName), newName, name, t) == off
  {
    var r, t := Replaced(text, sites, name, newName), Shift(text, sites, name, newName, off);
    var images := ShiftedSites(text, sites, name, newName);
    ReplacedBetween(text, sites, name, newName, off, |text|);
    ImageKept(text, sites, name, newName, off);
    UndoFrom(text, sites, name, newName, off);
    ReplaceUndo(text, sites, name, newName);
    ReplaceSplit(r, images, |newName|, name, 0, t, |r|);
  }

  lemma {:induction false} RenameRelocated(n: Node, name: ByteString, newName: ByteString, move: Pos -> Pos)
    ensures RenameNode(Relocate(n, move), name, newName) == Relocate(RenameNode(n, name, newName), move)
    decreases n, 1
  {
    if n.Node? {
      RenameRelocatedAll(n.children, name, newName, move);
    } else {
      RenameRelocatedAll(n.assigns, name, newName, move);
      RenameRelocatedAll(n.args, name, newName, move);
      CommandRelocated(RenameAll(n.args, name, newName), name, newName, move);
    }
  }

  lemma {:induction false} RenameRelocatedAll(ns: seq<Node>, name: ByteString, newName: ByteString, move: Pos -> Pos)
    ensures RenameAll(RelocateAll(ns, move), name, newName) == RelocateAll(RenameAll(ns, name, newName), move)
    decreases ns, 0
  {
    if ns != [] {
      RenameRelocated(ns[0], name, newName, move);
      RenameRelocatedAll(ns[1..], name, newName, move);
      assert RenameAll(ns, name, newName)[1..] == RenameAll(ns[1..], name, newName);
      assert RelocateAll(ns, move)[1..] == RelocateAll(ns[1..], move);
    }
  }

  lemma {:induction false} RelocateOne(n: Node, move: Pos -> Pos)
    ensures RelocateAll([n], move) == [Relocate(n, move)]
  {
    assert [n][1..] == [];
  }

  lemma {:induction false} CommandRelocated(args: seq<Node>, name: ByteString, newName: ByteString, move: Pos -> Pos)
    ensures RenameCommand(RelocateAll(args, move), name, newName)
        == RelocateAll(RenameCommand(args, name, newName), move)
  {
    if args != [] {
      var moved := RelocateAll(args, move);
      assert moved[1..] == RelocateAll(args[1..], move);
      SingleLitRelocated(args[0], move);
      if SingleLit(args[0]).Some? {
        var renamed := RenameCommand(args, name, newName);
        assert renamed[1..] == args[1..];
        assert args[0].children == [args[0].children[0]];
        RelocateOne(args[0].children[0], move);
        RelocateOne(renamed[0].children[0], move);
      }
    }
  }

  /** Renaming to an unused name and back is the identity on trees. */
  lemma {:induction false} RenameBackNode(n: Node, name: ByteString, newName: ByteString)
    requires UsagesIn(Walk(n), newName) == []
    ensures RenameNode(RenameNode(n, name, newName), newName, name) == n
    decreases n, 1
  {
    UsagesBelow(n, newName);
    if n.Node? {
      RenameBackAll(n.children, name, newName);
    } else {
      RenameBackAll(n.assigns, name, newName);
      RenameBackAll(n.args, name, newName);
      CommandBack(n.args, name, newName);
    }
  }

  /** No usage in a tree means none at its root and none below. */
  lemma {:induction false} UsagesBelow(n: Node, x: ByteString)
    requires UsagesIn(Walk(n), x) == []
    ensures UsageAt(n, x) == []
    ensures n.Node? ==> UsagesIn(WalkAll(n.children), x) == []
    ensures n.CallExpr? ==> UsagesIn(WalkAll(n.assigns), x) == [] && UsagesIn(WalkAll(n.args), x) == []
  {
    assert [n][..0] == [];
    assert UsagesIn([n], x) == UsageAt(n, x);
    if n.Node? {
      UsagesAppend([n], WalkAll(n.children), x);
    } else {
      UsagesAppend([n] + WalkAll(n.assigns), WalkAll(n.args), x);
      UsagesAppend([n], WalkAll(n.assigns), x);
    }
  }

  lemma {:induction false} RenameBackAll(ns: seq<Node>, name: ByteString, newName: ByteString)
    requires UsagesIn(WalkAll(ns), newName) == []
    ensures RenameAll(RenameAll(ns, name, newName), newName, name) == ns
    decreases ns, 0
  {
    if ns != [] {
      UsagesAppend(Walk(ns[0]), WalkAll(ns[1..]), newName);
      RenameBackNode(ns[0], name, newName);
      RenameBackAll(ns[1..], name, newName);
      assert RenameAll(ns, name, newName)[1..] == RenameAll(ns[1..], name, newName);
    }
  }

  lemma {:induction false} RenameCommandRenamed(args: seq<Node>, a: ByteString, b: ByteString, c: ByteString,
                                                d: ByteString)
    ensures RenameAll(RenameCommand(args, a, b), c, d) == RenameCommand(RenameAll(args, c, d), a, b)
  {
    if args != [] && SingleLit(args[0]).Some? {
      var renamed := RenameCommand(args, a, b);
      var lit := args[0].children[0];
      assert renamed[1..] == args[1..];
      assert args[0].children == [lit];
      RenameOne(lit, c, d);
      RenameOne(renamed[0].children[0], c, d);
      assert RenameAll(args, c, d)[1..] == RenameAll(args[1..], c, d);
    } else if args != [] {
      SingleLitRenamed(args[0], c, d);
    }
  }

  lemma {:induction false} CommandBack(args: seq<Node>, name: ByteString, newName: ByteString)
    requires RenameAll(RenameAll(args, name, newName), newName, name) == args
    requires args != [] && SingleLit(args[0]).Some? ==> SingleLit(args[0]).value.value != newName
    ensures var renamed := RenameCommand(RenameAll(args, name, newName), name, newName);
      RenameCommand(RenameAll(renamed, newName, name), newName, name) == args
  {
    RenameCommandRenamed(RenameAll(args, name, newName), name, newName, newName, name);
    if args != [] && SingleLit(args[0]).Some? {
      var once := RenameCommand(args, name, newName);
      var twice := RenameCommand(once, newName, name);
      assert once[1..] == args[1..];
      assert args[0].children == [args[0].children[0]];
      assert twice[0].children == args[0].children;
      assert twice[0] == args[0];
      assert twice == [args[0]] + args[1..];
    }
  }

  /** Two moves in turn are the move that takes every literal where the two take it. */
  lemma {:induction false} RelocateTwice(n: Node, there: Pos -> Pos, back: Pos -> Pos, whole: Pos -> Pos)
    requires forall l :: l in Lits(n) ==> back(there(l.pos)) == whole(l.pos) && back(there(l.end)) == whole(l.end)
    ensures Relocate(Relocate(n, there), back) == Relocate(n, whole)
    decreases n, 1
  {
    if n.Node? {
      if n.name.Some? { assert n.name.value in Lits(n); }
      RelocateTwiceAll(n.children, there, back, whole);
    } else {
      RelocateTwiceAll(n.assigns, there, back, whole);
      RelocateTwiceAll(n.args, there, back, whole);
    }
  }

  lemma {:induction false} RelocateTwiceAll(ns: seq<Node>, there: Pos -> Pos, back: Pos -> Pos, whole: Pos -> Pos)
    requires forall l :: l in LitsAll(ns) ==> back(there(l.pos)) == whole(l.pos) && back(there(l.end)) == whole(l.end)
    ensures RelocateAll(RelocateAll(ns, there), back) == RelocateAll(ns, whole)
    decreases ns, 0
  {
    if ns != [] {
      RelocateTwice(ns[0], there, back, whole);
      RelocateTwiceAll(ns[1..], there, back, whole);
      assert RelocateAll(ns, there)[1..] == RelocateAll(ns[1..], there);
    }
  }

  lemma {:induction false} RelocateNowhere(n: Node, move: Pos -> Pos)
    requires forall l :: l in Lits(n) ==> move(l.pos) == l.pos && move(l.end) == l.end
    ensures Relocate(n, move) == n
    decreases n, 1
  {
    if n.Node? {
      if n.name.Some? { assert n.name.value in Lits(n); }
      RelocateNowhereAll(n.children, move);
    } else {
      RelocateNowhereAll(n.assigns, move);
      RelocateNowhereAll(n.args, move);
    }
  }

  lemma {:induction false} RelocateNowhereAll(ns: seq<Node>, move: Pos -> Pos)
    requires forall l :: l in LitsAll(ns) ==> move(l.pos) == l.pos && move(l.end) == l.end
    ensures RelocateAll(ns, move) == ns
    decreases ns, 0
  {
    if ns != [] {
      RelocateNowhere(ns[0], move);
      RelocateNowhereAll(ns[1..], move);
    }
  }

  /** The line and column that an offset of the text has. */
  function Settle(text: ByteString): Pos -> Pos {
    (p: Pos) => if p.offset <= |text| then PosAt(text, p.offset) else p
  }

  /** Every position of the tree has the line and column of its offset. */
  predicate Positioned(text: ByteString, file: Node) {
    forall l :: l in Lits(file) ==> Settle(text)(l.pos) == l.pos && Settle(text)(l.end) == l.end
  }

  /** Both ends of a literal come back to where their offsets are. */
  lemma {:induction false} LitMovedBack(text: ByteString, file: Node, name: ByteString, newName: ByteString, k: nat)
    requires Faithful(text, file, name) && name != [] && newName != [] && name != newName && Usages(file, newName) == []
    requires k < |Lits(file)|
    ensures var l, r, renamed := Lits(file)[k], RenamedText(text, file, name, newName),
                                 RenamedFile(text, file, name, newName);
      var there, back := Mover(text, file, name, newName), Mover(r, renamed, newName, name);
      back(there(l.pos)) == Settle(text)(l.pos) && back(there(l.end)) == Settle(text)(l.end)
  {
    var l, sites := Lits(file)[k], UsageSites(file, name);
    RenameBackText(text, file, name, newName);
    SitesOfRenamedFile(text, file, name, newName);
    LitKept(text, file, name, k);
    ShiftBack(text, sites, name, newName, l.pos.offset);
    ShiftBack(text, sites, name, newName, l.end.offset);
  }

  /**
   Renaming to a name that the file does not use and back restores the file: the text, and the tree with
   every offset at its line and column.  A tree that had them so is restored as it was.
   */
  lemma {:induction false} RenameBack(text: ByteString, file: Node, name: ByteString, newName: ByteString)
    requires Faithful(text, file, name) && name != [] && newName != [] && name != newName && Usages(file, newName) == []
    ensures var r, renamed := RenamedText(text, file, name, newName), RenamedFile(text, file, name, newName);
      && RenamedText(r, renamed, newName, name) == text
      && RenamedFile(r, renamed, newName, name) == Relocate(file, Settle(text))
    ensures Positioned(text, file) ==> Relocate(file, Settle(text)) == file
  {
    var r, renamed := RenamedText(text, file, name, newName), RenamedFile(text, file, name, newName);
    var there, back := Mover(text, file, name, newName), Mover(r, renamed, newName, name);
    RenameBackText(text, file, name, newName);
    RenameRelocated(RenameNode(file, name, newName), newName, name, there);
    RenameBackNode(file, name, newName);
    assert RenameNode(renamed, newName, name) == Relocate(file, there);
    forall l | l in Lits(file)
      ensures back(there(l.pos)) == Settle(text)(l.pos) && back(there(l.end)) == Settle(text)(l.end)
    {
      var k :| 0 <= k < |Lits(file)| && Lits(file)[k] == l;
      LitMovedBack(text, file, name, newName, k);
    }
    RelocateTwice(file, there, back, Settle(text));
    if Positioned(text, file) { RelocateNowhere(file, Settle(text)); }
  }

  // ----- a whole component

  /** The end of a span goes over a carriage return after a rename exactly if it did before. */
  lemma SpanMoved(text: ByteString, sites: set<nat>, name: ByteString, newName: ByteString, e: nat, b: nat)
    requires Sites(text, sites, name) && SpanEnd(text, e, b)
    requires Kept(sites, |name|, e) && Kept(sites, |name|, b) && forall s :: e <= s < b ==> s !in sites
    requires e < b ==> b !in sites
    ensures var r := Replaced(text, sites, name, newName);
      SpanEnd(r, Shift(text, sites, name, newName, e), Shift(text, sites, name, newName, b))
  {
    if e == b {
      ReplacedBetween(text, sites, name, newName, e, |text|);
    } else {
      var r, k := Replaced(text, sites, name, newName), Shift(text, sites, name, newName, e);
      RestKept(text, sites, name, newName, e, b);
      RestKept(text, sites, name, newName, e, b + 1);
      assert r[k..k + 2] == text[e..e + 2];
      assert r[k] == r[k..k + 2][0] && r[k + 1] == r[k..k + 2][1];
    }
  }

  /** A usage and what it is after a rename: the same place, with the new name if it is a usage of the old. */
  ghost predicate UseImage(text: ByteString, sites: set<nat>, name: ByteString, newName: ByteString, u: Usage, v: Usage)
    requires name != []
  {
    var r, e := Replaced(text, sites, name, newName), u.pos.offset + |u.name|;
    && SpelledAt(text, u) && e <= u.end.offset
    && Kept(sites, |name|, u.pos.offset) && Kept(sites, |name|, e) && Kept(sites, |name|, u.end.offset)
    && (forall s :: e <= s < u.end.offset ==> s !in sites)
    && v.pos.offset == Shift(text, sites, name, newName, u.pos.offset) <= |r|
    && v.end.offset == Shift(text, sites, name, newName, u.end.offset) <= |r|
    && v.pos == PosAt(r, v.pos.offset) && v.end == PosAt(r, v.end.offset)
    && v.pos.offset + |v.name| == Shift(text, sites, name, newName, e) <= |r|
    && r[v.pos.offset..v.pos.offset + |v.name|] == v.name
  }

  lemma ImageSpelled(text: ByteString, sites: set<nat>, name: ByteString, newName: ByteString, u: Usage, v: Usage)
    requires Sites(text, sites, name) && UseImage(text, sites, name, newName, u, v)
    requires GoesOn(u) ==> u.end.offset !in sites
    ensures SpelledAt(Replaced(text, sites, name, newName), v)
  {
    SpanMoved(text, sites, name, newName, u.pos.offset + |u.name|, u.end.offset);
  }

  /** Where the name of a usage ends, and what stands there after a rename. */
  lemma NameMoved(text: ByteString, sites: set<nat>, name: ByteString, newName: ByteString, u: Usage, rest: nat)
    requires Sites(text, sites, name) && SpelledAt(text, u) && u.pos.offset + |u.name| <= u.end.offset <= |text|
    requires Kept(sites, |name|, u.pos.offset) && Kept(sites, |name|, u.end.offset)
    requires if u.name == name then u.pos.offset in sites && rest == u.pos.offset + |name| else rest == u.pos.offset
    requires forall s :: rest <= s < u.end.offset ==> s !in sites
    ensures var r, a, e := Replaced(text, sites, name, newName), u.pos.offset, u.pos.offset + |u.name|;
      var x := if u.name == name then newName else u.name;
      && Kept(sites, |name|, e) && Shift(text, sites, name, newName, a) + |x| == Shift(text, sites, name, newName, e)
      && Shift(text, sites, name, newName, e) <= |r|
      && r[Shift(text, sites, name, newName, a)..Shift(text, sites, name, newName, e)] == x
  {
    var a, e := u.pos.offset, u.pos.offset + |u.name|;
    if u.name == name {
      SiteKept(text, sites, name, a);
      StretchImage(text, sites, name, newName, a, e);
    } else {
      RestKept(text, sites, name, newName, a, e);
    }
  }

  /** The literal of a usage after the rename, and the usage before. */
  lemma UseSource(text: ByteString, file: Node, name: ByteString, newName: ByteString, x: ByteString, i: nat)
    returns (k: nat)
    requires Faithful(text, file, name) && name != [] && newName != [] && name != newName && Usages(file, newName) == []
    requires x != [] && x != name && (x == newName || Spelled(text, file, x))
    requires i < |Usages(RenamedFile(text, file, name, newName), x)|
    ensures k < |Lits(file)| && i < |Usages(file, if x == newName then name else x)|
    ensures var y, v := if x == newName then name else x, Usages(RenamedFile(text, file, name, newName), x)[i];
      var u, m := Usages(file, y)[i], RenamedLit(text, file, name, newName, k);
      && SpelledAt(text, u) && u.name == y && u.pos == Lits(file)[k].pos && u.end == Lits(file)[k].end
      && (Marks(file, name)[k] <==> y == name)
      && v.name == x && v.pos == m.pos && v.end == m.end
  {
    var y := if x == newName then name else x;
    UsagesOfRenamedFile(text, file, name, newName, x);
    k := UsageIsLit(file, y, i);
    UsageSpelled(text, file, y, i);
    if x != newName && Marks(file, name)[k] {
      var j := LitIsUsage(file, name, k);
      assert false;
    }
  }

  /** The two ends of a usage have moved with the text, so its name has, too. */
  lemma EndsMakeImage(text: ByteString, sites: set<nat>, name: ByteString, newName: ByteString, u: Usage, v: Usage,
                      rest: nat)
    requires Sites(text, sites, name) && SpelledAt(text, u) && u.pos.offset + |u.name| <= u.end.offset <= |text|
    requires Kept(sites, |name|, u.pos.offset) && Kept(sites, |name|, u.end.offset)
    requires if u.name == name then u.pos.offset in sites && rest == u.pos.offset + |name| else rest == u.pos.offset
    requires forall s :: rest <= s < u.end.offset ==> s !in sites
    requires v.name == if u.name == name then newName else u.name
    requires v.pos.offset == Shift(text, sites, name, newName, u.pos.offset)
    requires v.end.offset == Shift(text, sites, name, newName, u.end.offset)
    requires var r := Replaced(text, sites, name, newName);
      && v.pos.offset <= |r| && v.end.offset <= |r|
      && v.pos == PosAt(r, v.pos.offset) && v.end == PosAt(r, v.end.offset)
    ensures UseImage(text, sites, name, newName, u, v)
  {
    NameMoved(text, sites, name, newName, u, rest);
  }

  /** The usages at a literal and at that literal renamed. */
  lemma {:induction false} LitImage(text: ByteString, file: Node, name: ByteString, newName: ByteString, k: nat,
                                    u: Usage, v: Usage)
    requires Faithful(text, file, name) && name != [] && newName != [] && k < |Lits(file)|
    requires SpelledAt(text, u) && u.pos == Lits(file)[k].pos && u.end == Lits(file)[k].end
    requires u.name != [] && (Marks(file, name)[k] <==> u.name == name)
    requires var m := RenamedLit(text, file, name, newName, k); v.pos == m.pos && v.end == m.end
    requires v.name == if u.name == name then newName else u.name
    ensures UseImage(text, UsageSites(file, name), name, newName, u, v)
  {
    UsagesAreSites(text, file, name);
    LitKept(text, file, name, k);
    RenamedLitEnds(text, file, name, newName, k);
    EndsMakeImage(text, UsageSites(file, name), name, newName, u, v, Rest(file, name, k));
  }

  /** Of every usage after the rename there is one before of which it is the image. */
  lemma UseMoved(text: ByteString, file: Node, name: ByteString, newName: ByteString, x: ByteString, i: nat)
    requires Faithful(text, file, name) && name != [] && newName != [] && name != newName && Usages(file, newName) == []
    requires x != [] && x != name && (x == newName || Spelled(text, file, x))
    requires i < |Usages(RenamedFile(text, file, name, newName), x)|
    ensures var us := Usages(file, if x == newName then name else x);
      var v := Usages(RenamedFile(text, file, name, newName), x)[i];
      i < |us| && UseImage(text, UsageSites(file, name), name, newName, us[i], v) && v.name == x
  {
    var y := if x == newName then name else x;
    var k := UseSource(text, file, name, newName, x, i);
    LitImage(text, file, name, newName, k, Usages(file, y)[i], Usages(RenamedFile(text, file, name, newName), x)[i]);
  }

  /** Where one image ends and another begins, so do the usages. */
  lemma ImagesTouch(text: ByteString, sites: set<nat>, name: ByteString, newName: ByteString, u: Usage, v: Usage,
                    other: Usage, image: Usage)
    requires name != [] && newName != [] && UseImage(text, sites, name, newName, u, v)
    requires UseImage(text, sites, name, newName, other, image) && image.pos.offset == v.end.offset
    ensures other.pos.offset == u.end.offset && (GoesOn(v) ==> GoesOn(u))
  {
    SameImage(text, sites, name, newName, other.pos.offset, u.end.offset);
  }

  /** The line ends that spans go over stay free. */
  lemma LineEndsStayFree(text: ByteString, file: Node, name: ByteString, newName: ByteString, y: ByteString,
                         after: Node, x: ByteString)
    requires name != [] && newName != [] && |Usages(after, x)| == |Usages(file, y)| && LineEndsFree(file, y, y)
    requires forall i :: 0 <= i < |Usages(after, x)| ==>
      UseImage(text, UsageSites(file, name), name, newName, Usages(file, y)[i], Usages(after, x)[i])
    ensures LineEndsFree(after, x, x)
  {
    var us, vs := Usages(file, y), Usages(after, x);
    forall i | 0 <= i < |vs| ensures EndFree(after, vs[i], x) {
      assert EndFree(file, us[i], y);
      if GoesOn(vs[i]) && vs[i].end.offset in UsageSites(after, x) {
        var j :| 0 <= j < |vs| && vs[j].pos.offset == vs[i].end.offset;
        ImagesTouch(text, UsageSites(file, name), name, newName, us[i], vs[i], us[j], vs[j]);
        assert false;
      }
    }
  }

  lemma SameImage(text: ByteString, sites: set<nat>, name: ByteString, newName: ByteString, a: nat, b: nat)
    requires name != [] && newName != [] && a <= |text| && b <= |text|
    requires Kept(sites, |name|, a) && Kept(sites, |name|, b)
    requires Shift(text, sites, name, newName, a) == Shift(text, sites, name, newName, b)
    ensures a == b
  {
    if a < b { ShiftMonotone(text, sites, name, newName, a, b); }
    if b < a { ShiftMonotone(text, sites, name, newName, b, a); }
  }

  /** After the rename the new name is spelled where it is used, and any other name where it was. */
  lemma RenamedFileFaithful(text: ByteString, file: Node, name: ByteString, newName: ByteString, x: ByteString)
    requires Faithful(text, file, name) && name != [] && newName != [] && name != newName && Usages(file, newName) == []
    requires x != [] && x != name
    requires x == newName || (Spelled(text, file, x) && LineEndsFree(file, x, name))
    ensures Faithful(RenamedText(text, file, name, newName), RenamedFile(text, file, name, newName), x)
  {
    var r, renamed := RenamedText(text, file, name, newName), RenamedFile(text, file, name, newName);
    var y, sites := if x == newName then name else x, UsageSites(file, name);
    var us, vs := Usages(file, y), Usages(renamed, x);
    RenamedFileReads(text, file, name, newName);
    UsagesOfRenamedFile(text, file, name, newName, x);
    UsagesAreSites(text, file, name);
    forall i | 0 <= i < |vs| ensures UseImage(text, sites, name, newName, us[i], vs[i]) && SpelledAt(r, vs[i]) {
      UseMoved(text, file, name, newName, x, i);
      assert EndFree(file, us[i], name);
      ImageSpelled(text, sites, name, newName, us[i], vs[i]);
    }
    LineEndsStayFree(text, file, name, newName, y, renamed, x);
  }

  /**
   Renaming a name throughout a component to a name the component does not use: the component is the
   same set of files; in each of them the old name is gone and the new one is used exactly at the old
   sites, with the same kinds, and spelled there by the edited text; and renaming back restores every
   file.
   */
  lemma RenamePreservesMeaning(entries: Entries, texts: map<Uri, ByteString>, resolve: Resolver, from: Uri,
                               name: ByteString, newName: ByteString, u: Uri)
    requires name != [] && newName != [] && name != newName && (IsSourceCommand(name) <==> IsSourceCommand(newName))
    requires var files := Component(entries, resolve, from);
      && u in files && u in entries
      && forall v :: v in files && v in entries ==>
           v in texts && Faithful(texts[v], entries[v], name) && Usages(entries[v], newName) == []
    ensures var files := Component(entries, resolve, from);
      var after := RenamedEntries(entries, texts, files, name, newName);
      var r := RenamedText(texts[u], entries[u], name, newName);
      && Component(after, resolve, from) == files
      && after.Keys == entries.Keys
      && Faithful(r, after[u], newName)
      && Usages(after[u], name) == []
      && Usages(after[u], newName)
          == MoveUsages(Usages(entries[u], name), newName, Mover(texts[u], entries[u], name, newName))
      && RenamedText(r, after[u], newName, name) == texts[u]
      && RenamedFile(r, after[u], newName, name) == Relocate(entries[u], Settle(texts[u]))
    ensures forall v :: v in entries && v !in Component(entries, resolve, from) ==>
      RenamedEntries(entries, texts, Component(entries, resolve, from), name, newName)[v] == entries[v]
  {
    ComponentsKept(entries, texts, Component(entries, resolve, from), name, newName, resolve, from);
    RenamedFileFaithful(texts[u], entries[u], name, newName, newName);
    UsagesOfRenamedFile(texts[u], entries[u], name, newName, name);
    UsagesOfRenamedFile(texts[u], entries[u], name, newName, newName);
    RenameBack(texts[u], entries[u], name, newName);
  }
}
