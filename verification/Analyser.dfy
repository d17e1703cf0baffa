/** Usages and declarations: the model of internal/analyser/usages.go and declarations.go. */
module Analyser {
  import opened Bytes
  import opened Positions
  import opened Syntax

  datatype UsageKind = Read | Write

  datatype Usage = Usage(name: ByteString, kind: UsageKind, pos: Pos, end: Pos)

  datatype DeclarationKind = Function | Variable

  datatype Declaration = Declaration(name: ByteString, kind: DeclarationKind, pos: Pos, end: Pos)

  // ----- usages

  /** What one visited node contributes, as a literal and a kind. */
  function UsageLit(n: Node, name: ByteString): Option<(UsageKind, Lit)> {
    match n
    case CallExpr(_, _) =>
      if Command(n).Some? && Command(n).value.value == name then Some((Read, Command(n).value)) else None
    case Node(kind, lit, _) =>
      if lit.None? || lit.value.value != name then None
      else if kind == FuncDecl || kind == Assign then Some((Write, lit.value))
      else if kind == ParamExp then Some((Read, lit.value))
      else None
  }

  function UsageAt(n: Node, name: ByteString): seq<Usage> {
    match UsageLit(n, name)
    case None => []
    case Some((kind, l)) => [Usage(name, kind, l.pos, l.end)]
  }

  function UsagesIn(ns: seq<Node>, name: ByteString): seq<Usage> {
    if ns == [] then [] else UsagesIn(ns[..|ns| - 1], name) + UsageAt(ns[|ns| - 1], name)
  }

  function Usages(file: Node, name: ByteString): seq<Usage> {
    if name == [] then [] else UsagesIn(Walk(file), name)
  }

  /** `FindUsages`: the callback that the walk calls on every node. A missing file has no usages. */
  method FindUsages(file: Option<Node>, name: ByteString) returns (out: seq<Usage>)
    ensures out == if file.None? then [] else Usages(file.value, name)
  {
    if file.None? || name == [] {
      return [];
    }
    out := [];
    var nodes := Walk(file.value);
    for i := 0 to |nodes|
      invariant out == UsagesIn(nodes[..i], name)
    {
      assert nodes[..i + 1][..i] == nodes[..i];
      var n := nodes[i];
      if n.Node? {
        if n.kind == FuncDecl || n.kind == Assign {
          if n.name.Some? && n.name.value.value == name {
            out := out + [Usage(name, Write, n.name.value.pos, n.name.value.end)];
          }
        } else if n.kind == ParamExp {
          if n.name.Some? && n.name.value.value == name {
            out := out + [Usage(name, Read, n.name.value.pos, n.name.value.end)];
          }
        }
      } else {
        if |n.args| == 0 || SingleLit(n.args[0]).None? {
          continue;
        }
        var lit := SingleLit(n.args[0]).value;
        if lit.value != name {
          continue;
        }
        out := out + [Usage(name, Read, lit.pos, lit.end)];
      }
    }
    assert nodes[..|nodes|] == nodes;
  }

  /** A name that ends at `e` has a span to `b`: to the same offset, or over the carriage return of a line end. */
  predicate SpanEnd(text: ByteString, e: nat, b: nat) {
    e == b <= |text| || (e + 1 == b < |text| && text[e] == RETURN && text[b] == NEWLINE)
  }

  /** The usage spells its name: the text from its position on is the name, and its span ends there. */
  predicate SpelledAt(text: ByteString, u: Usage) {
    var a, e := u.pos.offset, u.pos.offset + |u.name|;
    && e <= |text| && text[a..e] == u.name && SpanEnd(text, e, u.end.offset)
    && u.pos == PosAt(text, a) && u.end == PosAt(text, u.end.offset)
  }

  /** The offsets at which a name is used. */
  function UsageSites(file: Node, name: ByteString): set<nat> {
    set i | 0 <= i < |Usages(file, name)| :: Usages(file, name)[i].pos.offset
  }

  /** The span of the usage goes on after its name. */
  predicate GoesOn(u: Usage) {
    u.pos.offset + |u.name| < u.end.offset
  }

  /** If the span of a usage goes on into a line end, no usage of `name` starts at its newline. */
  predicate EndFree(file: Node, u: Usage, name: ByteString) {
    GoesOn(u) ==> u.end.offset !in UsageSites(file, name)
  }

  predicate LineEndsFree(file: Node, x: ByteString, name: ByteString) {
    forall i {:trigger EndFree(file, Usages(file, x)[i], name)} :: 0 <= i < |Usages(file, x)| ==>
      EndFree(file, Usages(file, x)[i], name)
  }

  /** What is assumed of the parser for the usages of one name; no other literal has to spell what it covers. */
  predicate Spelled(text: ByteString, file: Node, name: ByteString) {
    && (forall i :: 0 <= i < |Usages(file, name)| ==> SpelledAt(text, Usages(file, name)[i]))
    && LineEndsFree(file, name, name)
  }

  predicate Faithful(text: ByteString, file: Node, name: ByteString) {
    Placed(text, file) && Spelled(text, file, name)
  }

  // ----- declarations

  function DeclarationAt(n: Node): seq<Declaration> {
    if n.CallExpr? || n.name.None? then []
    else if n.kind == FuncDecl then [Declaration(n.name.value.value, Function, n.name.value.pos, n.name.value.end)]
    else if n.kind == Assign then [Declaration(n.name.value.value, Variable, n.name.value.pos, n.name.value.end)]
    else []
  }

  function DeclarationsIn(ns: seq<Node>): seq<Declaration> {
    if ns == [] then [] else DeclarationsIn(ns[..|ns| - 1]) + DeclarationAt(ns[|ns| - 1])
  }

  function Declarations(file: Node): seq<Declaration> {
    DeclarationsIn(Walk(file))
  }

  /** `FindDeclarations`. */
  method FindDeclarations(file: Option<Node>) returns (out: seq<Declaration>)
    ensures out == if file.None? then [] else Declarations(file.value)
  {
    if file.None? {
      return [];
    }
    out := [];
    var nodes := Walk(file.value);
    for i := 0 to |nodes|
      invariant out == DeclarationsIn(nodes[..i])
    {
      assert nodes[..i + 1][..i] == nodes[..i];
      var n := nodes[i];
      if n.Node? && n.kind == FuncDecl {
        if n.name.Some? {
          var lit := n.name.value;
          out := out + [Declaration(lit.value, Function, lit.pos, lit.end)];
        }
      } else if n.Node? && n.kind == Assign {
        if n.name.Some? {
          var lit := n.name.value;
          out := out + [Declaration(lit.value, Variable, lit.pos, lit.end)];
        }
      }
    }
    assert nodes[..|nodes|] == nodes;
  }

  // ----- the two agree

  function Writes(usages: seq<Usage>): seq<Usage> {
    if usages == [] then []
    else Writes(usages[..|usages| - 1]) + if usages[|usages| - 1].kind == Write then [usages[|usages| - 1]] else []
  }

  /** The declarations of a name, seen as usages. */
  function DeclarationUsages(decls: seq<Declaration>, name: ByteString): seq<Usage> {
    if decls == [] then []
    else
      var d := decls[|decls| - 1];
      DeclarationUsages(decls[..|decls| - 1], name) + if d.name == name then [Usage(name, Write, d.pos, d.end)] else []
  }

  lemma WritesOneMore(us: seq<Usage>, t: seq<Usage>)
    requires |t| <= 1
    ensures Writes(us + t) == Writes(us) + if t != [] && t[0].kind == Write then t else []
  {
    if t == [] {
      assert us + t == us;
    } else {
      assert (us + t)[..|us|] == us;
    }
  }

  lemma {:induction false} DeclarationsOneMore(ds: seq<Declaration>, t: seq<Declaration>, name: ByteString)
    requires |t| <= 1
    ensures DeclarationUsages(ds + t, name)
         == DeclarationUsages(ds, name)
            + if t != [] && t[0].name == name then [Usage(name, Write, t[0].pos, t[0].end)] else []
  {
    if t == [] {
      assert ds + t == ds;
    } else {
      assert (ds + t)[..|ds|] == ds;
    }
  }

  /** What one node adds on either side. */
  lemma WriteIsDeclaration(n: Node, name: ByteString)
    ensures (if UsageAt(n, name) != [] && UsageAt(n, name)[0].kind == Write then UsageAt(n, name) else [])
         == (var t := DeclarationAt(n);
             if t != [] && t[0].name == name then [Usage(name, Write, t[0].pos, t[0].end)] else [])
    ensures |UsageAt(n, name)| <= 1 && |DeclarationAt(n)| <= 1
  {
  }

  lemma {:induction false} WritesAreDeclarationsIn(ns: seq<Node>, name: ByteString)
    ensures Writes(UsagesIn(ns, name)) == DeclarationUsages(DeclarationsIn(ns), name)
  {
    if ns != [] {
      var front, last := ns[..|ns| - 1], ns[|ns| - 1];
      WritesAreDeclarationsIn(front, name);
      WriteIsDeclaration(last, name);
      WritesOneMore(UsagesIn(front, name), UsageAt(last, name));
      DeclarationsOneMore(DeclarationsIn(front), DeclarationAt(last), name);
    }
  }

  /** For a nonempty name the write usages of a file are, in order and span, the declarations of that name. */
  lemma {:induction false} WritesAreDeclarations(file: Node, name: ByteString)
    requires name != []
    ensures Writes(Usages(file, name)) == DeclarationUsages(Declarations(file), name)
  {
    WritesAreDeclarationsIn(Walk(file), name);
  }

  lemma {:induction false} SomeWrite(usages: seq<Usage>)
    ensures Writes(usages) != [] <==> exists i :: 0 <= i < |usages| && usages[i].kind == Write
  {
    if usages != [] { SomeWrite(usages[..|usages| - 1]); }
  }

  lemma {:induction false} SomeDeclaration(decls: seq<Declaration>, name: ByteString)
    ensures DeclarationUsages(decls, name) != [] <==> exists i :: 0 <= i < |decls| && decls[i].name == name
  {
    if decls != [] { SomeDeclaration(decls[..|decls| - 1], name); }
  }

  /** A file has a write usage of a name exactly when it declares the name. */
  lemma WrittenIffDeclared(file: Node, name: ByteString)
    requires name != []
    ensures (exists i :: 0 <= i < |Usages(file, name)| && Usages(file, name)[i].kind == Write)
       <==> (exists i :: 0 <= i < |Declarations(file)| && Declarations(file)[i].name == name)
  {
    WritesAreDeclarations(file, name);
    SomeWrite(Usages(file, name));
    SomeDeclaration(Declarations(file), name);
  }

  // ----- usages, node by node

  lemma {:induction false} UsagesAppend(a: seq<Node>, b: seq<Node>, name: ByteString)
    ensures UsagesIn(a + b, name) == UsagesIn(a, name) + UsagesIn(b, name)
  {
    if b == [] {
      assert a + b == a;
    } else {
      assert (a + b)[..|a + b| - 1] == a + b[..|b| - 1];
      UsagesAppend(a, b[..|b| - 1], name);
    }
  }

  /** Every usage has the name that was asked for and comes from a visited node. */
  lemma {:induction false} UsageSource(ns: seq<Node>, name: ByteString, i: nat) returns (k: nat)
    requires i < |UsagesIn(ns, name)|
    ensures k < |ns| && UsageAt(ns[k], name) == [UsagesIn(ns, name)[i]]
  {
    var front := ns[..|ns| - 1];
    if i < |UsagesIn(front, name)| {
      k := UsageSource(front, name, i);
    } else {
      k := |ns| - 1;
    }
  }
}
