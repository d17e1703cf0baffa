/**
 Rename seen on syntax trees: every usage of a name is given another name, and nothing else changes.

 `RenameNode` follows the roles that internal/analyser/usages.go looks at; `Relocate` moves the
 positions of literals.  A renamed file is first renamed and then relocated to the edited text.
 */
module RenameTree {
  import opened Bytes
  import opened Positions
  import opened Syntax
  import opened Analyser

  /** Kinds of node whose own literal is a usage of the name it spells. */
  predicate Naming(kind: Kind) {
    kind == FuncDecl || kind == Assign || kind == ParamExp
  }

  function RenameLit(l: Lit, name: ByteString, newName: ByteString): Lit {
    if l.value == name then l.(value := newName) else l
  }

  /** Renames the command word of a call. */
  function RenameCommand(args: seq<Node>, name: ByteString, newName: ByteString): seq<Node> {
    if args == [] || SingleLit(args[0]).None? then args
    else
      var lit := args[0].children[0];
      var renamed := lit.(name := Some(RenameLit(lit.name.value, name, newName)));
      [args[0].(children := [renamed])] + args[1..]
  }

  function RenameNode(n: Node, name: ByteString, newName: ByteString): Node
    decreases n, 1
  {
    match n
    case Node(kind, lit, children) =>
      Node(kind,
           if Naming(kind) && lit.Some? then Some(RenameLit(lit.value, name, newName)) else lit,
           RenameAll(children, name, newName))
    case CallExpr(assigns, args) =>
      CallExpr(RenameAll(assigns, name, newName), RenameCommand(RenameAll(args, name, newName), name, newName))
  }

  function RenameAll(ns: seq<Node>, name: ByteString, newName: ByteString): (r: seq<Node>)
    ensures |r| == |ns|
    decreases ns, 0
  {
    if ns == [] then [] else [RenameNode(ns[0], name, newName)] + RenameAll(ns[1..], name, newName)
  }

  function RelocateLit(l: Lit, move: Pos -> Pos): Lit {
    Lit(l.value, move(l.pos), move(l.end))
  }

  function Relocate(n: Node, move: Pos -> Pos): Node
    decreases n, 1
  {
    match n
    case Node(kind, lit, children) =>
      Node(kind, if lit.Some? then Some(RelocateLit(lit.value, move)) else None, RelocateAll(children, move))
    case CallExpr(assigns, args) => CallExpr(RelocateAll(assigns, move), RelocateAll(args, move))
  }

  function RelocateAll(ns: seq<Node>, move: Pos -> Pos): (r: seq<Node>)
    ensures |r| == |ns|
    decreases ns, 0
  {
    if ns == [] then [] else [Relocate(ns[0], move)] + RelocateAll(ns[1..], move)
  }

  // ----- what the analyser sees of a node

  /** A naming node and its literal; or a call, its command and its first argument if they are single literals. */
  datatype View = Name(kind: Kind, lit: Lit) | Call(command: Option<Lit>, argument: Option<Lit>) | Skip

  function ViewOf(n: Node): View {
    if n.CallExpr? then Call(Command(n), if |n.args| < 2 then None else SingleLit(n.args[1]))
    else if Naming(n.kind) && n.name.Some? then Name(n.kind, n.name.value)
    else Skip
  }

  function Views(ns: seq<Node>): (r: seq<View>)
    ensures |r| == |ns|
  {
    seq(|ns|, i requires 0 <= i < |ns| => ViewOf(ns[i]))
  }

  function RenameOption(l: Option<Lit>, name: ByteString, newName: ByteString): Option<Lit> {
    if l.Some? then Some(RenameLit(l.value, name, newName)) else None
  }

  function RenameView(v: View, name: ByteString, newName: ByteString): View {
    match v
    case Name(kind, lit) => Name(kind, RenameLit(lit, name, newName))
    case Call(command, argument) => Call(RenameOption(command, name, newName), argument)
    case Skip => Skip
  }

  function RenameViews(vs: seq<View>, name: ByteString, newName: ByteString): (r: seq<View>)
    ensures |r| == |vs|
  {
    seq(|vs|, i requires 0 <= i < |vs| => RenameView(vs[i], name, newName))
  }

  lemma ViewsAppend(a: seq<Node>, b: seq<Node>)
    ensures Views(a + b) == Views(a) + Views(b)
  {
  }

  lemma RenameViewsAppend(a: seq<View>, b: seq<View>, name: ByteString, newName: ByteString)
    ensures RenameViews(a + b, name, newName) == RenameViews(a, name, newName) + RenameViews(b, name, newName)
  {
  }

  lemma {:induction false} RenameOne(n: Node, name: ByteString, newName: ByteString)
    ensures RenameAll([n], name, newName) == [RenameNode(n, name, newName)]
  {
    assert [n][1..] == [];
  }

  /** A word is renamed only as the command of a call, which is not seen from the word. */
  lemma {:induction false} SingleLitRenamed(word: Node, name: ByteString, newName: ByteString)
    ensures SingleLit(RenameNode(word, name, newName)) == SingleLit(word)
  {
    if word.Node? && |word.children| == 1 {
      assert word.children == [word.children[0]];
      RenameOne(word.children[0], name, newName);
    }
  }

  lemma {:induction false} RenameAllAt(ns: seq<Node>, name: ByteString, newName: ByteString, i: nat)
    requires i < |ns|
    ensures RenameAll(ns, name, newName)[i] == RenameNode(ns[i], name, newName)
  {
    if i > 0 { RenameAllAt(ns[1..], name, newName, i - 1); }
  }

  lemma {:induction false} ViewRenamed(n: Node, name: ByteString, newName: ByteString)
    ensures ViewOf(RenameNode(n, name, newName)) == RenameView(ViewOf(n), name, newName)
  {
    if n.CallExpr? {
      if |n.args| > 0 {
        SingleLitRenamed(n.args[0], name, newName);
      }
      if |n.args| > 1 {
        RenameAllAt(n.args, name, newName, 1);
        SingleLitRenamed(n.args[1], name, newName);
      }
    }
  }

  lemma {:induction false} ViewsOfAll(ns: seq<Node>)
    requires ns != []
    ensures Views(WalkAll(ns)) == Views(Walk(ns[0])) + Views(WalkAll(ns[1..]))
  {
    ViewsAppend(Walk(ns[0]), WalkAll(ns[1..]));
  }

  /** The views of a single-literal word. */
  lemma {:induction false} ViewsOfWord(word: Node)
    requires SingleLit(word).Some?
    ensures Views(Walk(word)) == [Skip, Skip] + Views(WalkAll(word.children[0].children))
  {
    var lit := word.children[0];
    assert word.children == [lit] && [lit][1..] == [];
    assert WalkAll(word.children) == Walk(lit);
    assert Walk(word) == [word] + ([lit] + WalkAll(lit.children));
  }

  /** Renaming the command word changes nothing that is seen below the call. */
  lemma {:induction false} ViewsOfCommand(args: seq<Node>, name: ByteString, newName: ByteString)
    ensures Views(WalkAll(RenameCommand(args, name, newName))) == Views(WalkAll(args))
  {
    if args != [] && SingleLit(args[0]).Some? {
      var renamed := RenameCommand(args, name, newName);
      assert renamed[1..] == args[1..];
      ViewsOfAll(args);
      ViewsOfAll(renamed);
      ViewsOfWord(args[0]);
      ViewsOfWord(renamed[0]);
    }
  }

  /** What is seen of a call: the call itself, then its assignments and arguments. */
  lemma {:induction false} ViewsOfCall(n: Node)
    requires n.CallExpr?
    ensures Views(Walk(n)) == [ViewOf(n)] + (Views(WalkAll(n.assigns)) + Views(WalkAll(n.args)))
  {
    assert Walk(n) == [n] + (WalkAll(n.assigns) + WalkAll(n.args));
    ViewsAppend(WalkAll(n.assigns), WalkAll(n.args));
  }

  /** Seen from the analyser, renaming a tree renames each visited node. */
  lemma {:induction false} ViewsRenamed(n: Node, name: ByteString, newName: ByteString)
    ensures Views(Walk(RenameNode(n, name, newName))) == RenameViews(Views(Walk(n)), name, newName)
    decreases n, 1
  {
    var r := RenameNode(n, name, newName);
    ViewRenamed(n, name, newName);
    if n.Node? {
      ViewsRenamedAll(n.children, name, newName);
      ViewsAppend([n], WalkAll(n.children));
      ViewsAppend([r], WalkAll(r.children));
      RenameViewsAppend(Views([n]), Views(WalkAll(n.children)), name, newName);
    } else {
      ViewsRenamedAll(n.assigns, name, newName);
      ViewsRenamedAll(n.args, name, newName);
      ViewsOfCommand(RenameAll(n.args, name, newName), name, newName);
      ViewsOfCall(n);
      ViewsOfCall(r);
      RenameViewsAppend([ViewOf(n)], Views(WalkAll(n.assigns)) + Views(WalkAll(n.args)), name, newName);
      RenameViewsAppend(Views(WalkAll(n.assigns)), Views(WalkAll(n.args)), name, newName);
    }
  }

  lemma {:induction false} ViewsRenamedAll(ns: seq<Node>, name: ByteString, newName: ByteString)
    ensures Views(WalkAll(RenameAll(ns, name, newName))) == RenameViews(Views(WalkAll(ns)), name, newName)
    decreases ns, 0
  {
    if ns != [] {
      var r := RenameAll(ns, name, newName);
      ViewsRenamed(ns[0], name, newName);
      ViewsRenamedAll(ns[1..], name, newName);
      ViewsOfAll(ns);
      ViewsOfAll(r);
      assert r[1..] == RenameAll(ns[1..], name, newName);
      RenameViewsAppend(Views(Walk(ns[0])), Views(WalkAll(ns[1..])), name, newName);
    }
  }

  lemma {:induction false} WalkRelocated(n: Node, move: Pos -> Pos)
    ensures Walk(Relocate(n, move)) == RelocateAll(Walk(n), move)
    decreases n, 1
  {
    if n.Node? {
      WalkRelocatedAll(n.children, move);
      RelocateAllAppend([n], WalkAll(n.children), move);
    } else {
      WalkRelocatedAll(n.assigns, move);
      WalkRelocatedAll(n.args, move);
      RelocateAllAppend([n], WalkAll(n.assigns), move);
      RelocateAllAppend([n] + WalkAll(n.assigns), WalkAll(n.args), move);
    }
  }

  lemma {:induction false} WalkRelocatedAll(ns: seq<Node>, move: Pos -> Pos)
    ensures WalkAll(RelocateAll(ns, move)) == RelocateAll(WalkAll(ns), move)
    decreases ns, 0
  {
    if ns != [] {
      var r := RelocateAll(ns, move);
      assert r[0] == Relocate(ns[0], move) && r[1..] == RelocateAll(ns[1..], move);
      WalkRelocated(ns[0], move);
      WalkRelocatedAll(ns[1..], move);
      RelocateAllAppend(Walk(ns[0]), WalkAll(ns[1..]), move);
    }
  }

  lemma {:induction false} RelocateAllAppend(a: seq<Node>, b: seq<Node>, move: Pos -> Pos)
    ensures RelocateAll(a + b, move) == RelocateAll(a, move) + RelocateAll(b, move)
  {
    if a == [] {
      assert a + b == b;
    } else {
      assert (a + b)[1..] == a[1..] + b;
      RelocateAllAppend(a[1..], b, move);
    }
  }

  lemma {:induction false} RelocateAllAt(ns: seq<Node>, move: Pos -> Pos, i: nat)
    requires i < |ns|
    ensures RelocateAll(ns, move)[i] == Relocate(ns[i], move)
  {
    if i > 0 { RelocateAllAt(ns[1..], move, i - 1); }
  }

  function RelocateOption(l: Option<Lit>, move: Pos -> Pos): Option<Lit> {
    if l.Some? then Some(RelocateLit(l.value, move)) else None
  }

  function RelocateView(v: View, move: Pos -> Pos): View {
    match v
    case Name(kind, lit) => Name(kind, RelocateLit(lit, move))
    case Call(command, argument) => Call(RelocateOption(command, move), RelocateOption(argument, move))
    case Skip => Skip
  }

  lemma {:induction false} SingleLitRelocated(word: Node, move: Pos -> Pos)
    ensures SingleLit(Relocate(word, move)) == RelocateOption(SingleLit(word), move)
  {
    if word.Node? && |word.children| == 1 {
      RelocateAllAt(word.children, move, 0);
    }
  }

  lemma {:induction false} ViewRelocated(n: Node, move: Pos -> Pos)
    ensures ViewOf(Relocate(n, move)) == RelocateView(ViewOf(n), move)
  {
    if n.CallExpr? {
      if |n.args| > 0 {
        RelocateAllAt(n.args, move, 0);
        SingleLitRelocated(n.args[0], move);
      }
      if |n.args| > 1 {
        RelocateAllAt(n.args, move, 1);
        SingleLitRelocated(n.args[1], move);
      }
    }
  }

  /** The view of each node visited in a renamed and relocated tree. */
  lemma {:induction false} ViewInRenamed(n: Node, name: ByteString, newName: ByteString, move: Pos -> Pos)
    ensures var ms := Walk(Relocate(RenameNode(n, name, newName), move));
      && |ms| == |Walk(n)|
      && forall i :: 0 <= i < |ms| ==>
          ViewOf(ms[i]) == RelocateView(RenameView(ViewOf(Walk(n)[i]), name, newName), move)
  {
    var r := RenameNode(n, name, newName);
    var ms := Walk(Relocate(r, move));
    ViewsRenamed(n, name, newName);
    WalkRelocated(r, move);
    assert |Views(Walk(r))| == |Views(Walk(n))|;
    forall i | 0 <= i < |ms|
      ensures ViewOf(ms[i]) == RelocateView(RenameView(ViewOf(Walk(n)[i]), name, newName), move)
    {
      RelocateAllAt(Walk(r), move, i);
      ViewRelocated(Walk(r)[i], move);
      assert Views(Walk(r))[i] == RenameViews(Views(Walk(n)), name, newName)[i];
    }
  }

  // ----- which literals a rename touches

  /** For each literal of a tree, whether it is a usage of the name. */
  function Marks(n: Node, name: ByteString): (m: seq<bool>)
    ensures |m| == |Lits(n)|
    decreases n, 1
  {
    match n
    case Node(kind, lit, children) =>
      (if lit.Some? then [Naming(kind) && lit.value.value == name] else []) + MarksAll(children, name)
    case CallExpr(assigns, args) =>
      MarksAll(assigns, name) + MarkCommand(args, name)
  }

  function MarksAll(ns: seq<Node>, name: ByteString): (m: seq<bool>)
    ensures |m| == |LitsAll(ns)|
    decreases ns, 0
  {
    if ns == [] then [] else Marks(ns[0], name) + MarksAll(ns[1..], name)
  }

  /** The marks below a call, with the command word marked when it is a usage. */
  function MarkCommand(args: seq<Node>, name: ByteString): (m: seq<bool>)
    ensures |m| == |LitsAll(args)|
    decreases args, 1
  {
    if args == [] || SingleLit(args[0]).None? || SingleLit(args[0]).value.value != name then MarksAll(args, name)
    else MarksAll(args, name)[CommandIndex(args) := true]
  }

  function OwnLit(n: Node): seq<Lit>
    requires n.Node?
  {
    if n.name.Some? then [n.name.value] else []
  }

  lemma {:induction false} LitsOfOne(n: Node)
    ensures LitsAll([n]) == Lits(n)
  {
    assert [n][1..] == [];
  }

  /** The literals of a single-literal word. */
  lemma {:induction false} LitsOfWord(word: Node)
    requires SingleLit(word).Some?
    ensures Lits(word) == OwnLit(word) + ([SingleLit(word).value] + LitsAll(word.children[0].children))
  {
    assert word.children == [word.children[0]];
    LitsOfOne(word.children[0]);
  }

  /** Index, among the literals of the arguments, of the command word. */
  function CommandIndex(args: seq<Node>): (k: nat)
    requires args != [] && SingleLit(args[0]).Some?
    ensures k < |Lits(args[0])| && Lits(args[0])[k] == SingleLit(args[0]).value
    ensures k < |LitsAll(args)| && LitsAll(args)[k] == SingleLit(args[0]).value
  {
    LitsOfWord(args[0]);
    |OwnLit(args[0])|
  }

  lemma {:induction false} CommandUnmarked(args: seq<Node>, name: ByteString)
    requires args != [] && SingleLit(args[0]).Some?
    ensures !MarksAll(args, name)[CommandIndex(args)]
  {
    var word, lit := args[0], args[0].children[0];
    assert word.children == [lit] && [lit][1..] == [];
    assert MarksAll(word.children, name) == Marks(lit, name) + [];
    assert Marks(lit, name)[0] == false;
    assert MarksAll(args, name)[CommandIndex(args)] == Marks(word, name)[CommandIndex(args)];
  }

  /** The literals of the renamed tree are the old ones, with the marked ones renamed. */
  function RenameMarked(lits: seq<Lit>, marks: seq<bool>, newName: ByteString): (r: seq<Lit>)
    requires |lits| == |marks|
    ensures |r| == |lits|
  {
    seq(|lits|, i requires 0 <= i < |lits| => if marks[i] then lits[i].(value := newName) else lits[i])
  }

  lemma RenameMarkedAppend(a: seq<Lit>, ma: seq<bool>, b: seq<Lit>, mb: seq<bool>, newName: ByteString)
    requires |a| == |ma| && |b| == |mb|
    ensures RenameMarked(a + b, ma + mb, newName) == RenameMarked(a, ma, newName) + RenameMarked(b, mb, newName)
  {
  }

  lemma {:induction false} LitsRenamed(n: Node, name: ByteString, newName: ByteString)
    ensures Lits(RenameNode(n, name, newName)) == RenameMarked(Lits(n), Marks(n, name), newName)
    decreases n, 1
  {
    if n.Node? {
      LitsRenamedAll(n.children, name, newName);
      if n.name.Some? {
        RenameMarkedAppend([n.name.value], [Naming(n.kind) && n.name.value.value == name],
                           LitsAll(n.children), MarksAll(n.children, name), newName);
      }
    } else {
      LitsRenamedAll(n.assigns, name, newName);
      LitsRenamedAll(n.args, name, newName);
      LitsRenamedCommand(n.args, name, newName);
      RenameMarkedAppend(LitsAll(n.assigns), MarksAll(n.assigns, name), LitsAll(n.args), MarkCommand(n.args, name),
                         newName);
    }
  }

  lemma {:induction false} LitsRenamedAll(ns: seq<Node>, name: ByteString, newName: ByteString)
    ensures LitsAll(RenameAll(ns, name, newName)) == RenameMarked(LitsAll(ns), MarksAll(ns, name), newName)
    decreases ns, 0
  {
    if ns != [] {
      LitsRenamed(ns[0], name, newName);
      LitsRenamedAll(ns[1..], name, newName);
      RenameMarkedAppend(Lits(ns[0]), Marks(ns[0], name), LitsAll(ns[1..]), MarksAll(ns[1..], name), newName);
    }
  }

  /** Two single-literal words that differ in the literal only. */
  lemma {:induction false} WordLits(v: Node, w: Node)
    requires SingleLit(v).Some? && SingleLit(w).Some? && v.name == w.name
    requires v.children[0].children == w.children[0].children
    ensures |OwnLit(v)| < |Lits(v)| && Lits(w) == Lits(v)[|OwnLit(v)| := SingleLit(w).value]
  {
    LitsOfWord(v);
    LitsOfWord(w);
  }

  lemma UpdateAppend<T>(a: seq<T>, b: seq<T>, k: nat, x: T)
    requires k < |a|
    ensures (a + b)[k := x] == a[k := x] + b
  {
  }

  lemma {:induction false} HeadReplaced(ns: seq<Node>, ms: seq<Node>, k: nat, l: Lit)
    requires ns != [] && ms != [] && ms[1..] == ns[1..] && k < |Lits(ns[0])| && Lits(ms[0]) == Lits(ns[0])[k := l]
    ensures k < |LitsAll(ns)| && LitsAll(ms) == LitsAll(ns)[k := l]
  {
    UpdateAppend(Lits(ns[0]), LitsAll(ns[1..]), k, l);
  }

  /** Renaming the command word changes its literal only. */
  lemma {:induction false} CommandLits(args: seq<Node>, name: ByteString, newName: ByteString)
    requires args != [] && SingleLit(args[0]).Some?
    ensures LitsAll(RenameCommand(args, name, newName))
         == LitsAll(args)[CommandIndex(args) := RenameLit(SingleLit(args[0]).value, name, newName)]
  {
    var r := RenameCommand(args, name, newName);
    assert r[1..] == args[1..];
    WordLits(args[0], r[0]);
    HeadReplaced(args, r, CommandIndex(args), SingleLit(r[0]).value);
  }

  lemma {:induction false} LitsRenamedCommand(args: seq<Node>, name: ByteString, newName: ByteString)
    requires LitsAll(RenameAll(args, name, newName)) == RenameMarked(LitsAll(args), MarksAll(args, name), newName)
    ensures LitsAll(RenameCommand(RenameAll(args, name, newName), name, newName))
         == RenameMarked(LitsAll(args), MarkCommand(args, name), newName)
  {
    var renamed := RenameAll(args, name, newName);
    if args != [] {
      SingleLitRenamed(args[0], name, newName);
      if SingleLit(args[0]).Some? {
        CommandUnmarked(args, name);
        CommandLits(renamed, name, newName);
        assert CommandIndex(renamed) == CommandIndex(args);
      }
    }
  }

  // ----- the marked literals are the usages

  function UsageLits(ns: seq<Node>, name: ByteString): seq<Lit> {
    if ns == [] then []
    else
      UsageLits(ns[..|ns| - 1], name) +
      match UsageLit(ns[|ns| - 1], name) { case None => [] case Some((_, l)) => [l] }
  }

  /** The usages of a file are its usage literals, one by one. */
  lemma {:induction false} UsagesAreLits(ns: seq<Node>, name: ByteString)
    ensures |UsagesIn(ns, name)| == |UsageLits(ns, name)|
    ensures forall i :: 0 <= i < |UsagesIn(ns, name)| ==>
              var u, l := UsagesIn(ns, name)[i], UsageLits(ns, name)[i];
              u.name == name && u.pos == l.pos && u.end == l.end && l.value == name
  {
    if ns != [] { UsagesAreLits(ns[..|ns| - 1], name); }
  }

  lemma {:induction false} UsageLitsAppend(a: seq<Node>, b: seq<Node>, name: ByteString)
    ensures UsageLits(a + b, name) == UsageLits(a, name) + UsageLits(b, name)
  {
    if b == [] {
      assert a + b == a;
    } else {
      assert (a + b)[..|a + b| - 1] == a + b[..|b| - 1];
      UsageLitsAppend(a, b[..|b| - 1], name);
    }
  }

  /** The marked literals. */
  function Pick(lits: seq<Lit>, marks: seq<bool>): seq<Lit>
    requires |lits| == |marks|
  {
    if lits == [] then [] else (if marks[0] then [lits[0]] else []) + Pick(lits[1..], marks[1..])
  }

  lemma {:induction false} PickAppend(a: seq<Lit>, ma: seq<bool>, b: seq<Lit>, mb: seq<bool>)
    requires |a| == |ma| && |b| == |mb|
    ensures Pick(a + b, ma + mb) == Pick(a, ma) + Pick(b, mb)
  {
    if a == [] {
      assert a + b == b && ma + mb == mb;
    } else {
      assert (a + b)[0] == a[0] && (ma + mb)[0] == ma[0];
      assert (a + b)[1..] == a[1..] + b && (ma + mb)[1..] == ma[1..] + mb;
      PickAppend(a[1..], ma[1..], b, mb);
    }
  }

  lemma {:induction false} PickOneMore(lits: seq<Lit>, marks: seq<bool>, k: nat)
    requires |lits| == |marks| && k < |lits| && !marks[k]
    ensures multiset(Pick(lits, marks[k := true])) == multiset(Pick(lits, marks)) + multiset{lits[k]}
  {
    var marked := marks[k := true];
    if k == 0 {
      assert marked[1..] == marks[1..];
    } else {
      assert marked[1..] == marks[1..][k - 1 := true];
      PickOneMore(lits[1..], marks[1..], k - 1);
    }
  }

  /** Marking the command word adds its literal. */
  lemma {:induction false} PickCommand(n: Node, name: ByteString)
    requires n.CallExpr?
    ensures multiset(Pick(LitsAll(n.args), MarkCommand(n.args, name)))
         == multiset(Pick(LitsAll(n.args), MarksAll(n.args, name))) + multiset(UsageLits([n], name))
  {
    assert [n][..0] == [];
    if Command(n).Some? && Command(n).value.value == name {
      CommandUnmarked(n.args, name);
      PickOneMore(LitsAll(n.args), MarksAll(n.args, name), CommandIndex(n.args));
    }
  }

  lemma {:induction false} PickOwn(n: Node, name: ByteString)
    requires n.Node?
    ensures Pick(Lits(n), Marks(n, name))
        == UsageLits([n], name) + Pick(LitsAll(n.children), MarksAll(n.children, name))
  {
    assert [n][..0] == [];
    if n.name.Some? {
      PickAppend([n.name.value], [Naming(n.kind) && n.name.value.value == name], LitsAll(n.children),
                 MarksAll(n.children, name));
    } else {
      assert Lits(n) == LitsAll(n.children) && Marks(n, name) == MarksAll(n.children, name);
    }
  }

  lemma {:induction false} MarkedAreUsages(n: Node, name: ByteString)
    ensures multiset(Pick(Lits(n), Marks(n, name))) == multiset(UsageLits(Walk(n), name))
    decreases n, 1
  {
    if n.Node? {
      MarkedAreUsagesAll(n.children, name);
      UsageLitsAppend([n], WalkAll(n.children), name);
      PickOwn(n, name);
    } else {
      MarkedAreUsagesAll(n.assigns, name);
      MarkedAreUsagesAll(n.args, name);
      UsageLitsAppend([n], WalkAll(n.assigns), name);
      UsageLitsAppend([n] + WalkAll(n.assigns), WalkAll(n.args), name);
      PickAppend(LitsAll(n.assigns), MarksAll(n.assigns, name), LitsAll(n.args), MarkCommand(n.args, name));
      PickCommand(n, name);
    }
  }

  lemma {:induction false} MarkedAreUsagesAll(ns: seq<Node>, name: ByteString)
    ensures multiset(Pick(LitsAll(ns), MarksAll(ns, name))) == multiset(UsageLits(WalkAll(ns), name))
    decreases ns, 0
  {
    if ns != [] {
      MarkedAreUsages(ns[0], name);
      MarkedAreUsagesAll(ns[1..], name);
      UsageLitsAppend(Walk(ns[0]), WalkAll(ns[1..]), name);
      PickAppend(Lits(ns[0]), Marks(ns[0], name), LitsAll(ns[1..]), MarksAll(ns[1..], name));
    }
  }
}
