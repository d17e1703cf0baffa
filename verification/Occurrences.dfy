/** Usages and declarations of a file, node by node: which nodes have one, of which kind, and where. */
module Occurrences {
  import opened Bytes
  import opened Positions
  import opened Syntax
  import opened Selection
  import opened Analyser

  // ----- usages

  /** A function declaration or an assignment of the name. */
  predicate Binds(n: Node, name: ByteString) {
    && n.Node? && (n.kind == FuncDecl || n.kind == Assign)
    && n.name.Some? && n.name.value.value == name
  }

  /** An expansion of the name. */
  predicate Expands(n: Node, name: ByteString) {
    n.Node? && n.kind == ParamExp && n.name.Some? && n.name.value.value == name
  }

  /** A call whose first word is the name. */
  predicate Calls(n: Node, name: ByteString) {
    n.CallExpr? && |n.args| > 0 && Spells(n.args[0], name)
  }

  predicate Uses(n: Node, name: ByteString) {
    Binds(n, name) || Expands(n, name) || Calls(n, name)
  }

  /** The usage is that of the node: a write for a declaration, a read otherwise, at the literal of the name. */
  predicate IsUseAt(n: Node, name: ByteString, u: Usage) {
    && Uses(n, name)
    && var lit := if n.CallExpr? then n.args[0].children[0].name.value else n.name.value;
    u == Usage(name, if Binds(n, name) then Write else Read, lit.pos, lit.end)
  }

  lemma UseOfNode(n: Node, name: ByteString)
    ensures |UsageAt(n, name)| == if Uses(n, name) then 1 else 0
    ensures Uses(n, name) ==> IsUseAt(n, name, UsageAt(n, name)[0])
  {
  }

  function UsesName(name: ByteString): Node -> bool {
    (n: Node) => Uses(n, name)
  }

  /** Where the nodes with a use are, and that the usages are theirs. */
  ghost predicate AreUses(ns: seq<Node>, name: ByteString, at: seq<nat>, us: seq<Usage>) {
    && Selects(at, ns, UsesName(name)) && |at| == |us|
    && forall i :: 0 <= i < |at| ==> IsUseAt(ns[at[i]], name, us[i])
  }

  lemma UsesOneMore(ns: seq<Node>, n: Node, name: ByteString, at: seq<nat>, us: seq<Usage>) returns (more: seq<nat>)
    requires AreUses(ns, name, at, us)
    ensures AreUses(ns + [n], name, more, us + UsageAt(n, name))
  {
    more := if Uses(n, name) then at + [|ns|] else at;
    UseOfNode(n, name);
    SelectsOneMore(at, ns, n, UsesName(name));
    assert !Uses(n, name) ==> us + UsageAt(n, name) == us;
  }

  lemma {:induction false} UsagesSelected(ns: seq<Node>, name: ByteString) returns (at: seq<nat>)
    ensures AreUses(ns, name, at, UsagesIn(ns, name))
  {
    if ns == [] {
      at := [];
    } else {
      var front, last := ns[..|ns| - 1], ns[|ns| - 1];
      at := UsagesSelected(front, name);
      at := UsesOneMore(front, last, name, at, UsagesIn(front, name));
      assert ns == front + [last];
    }
  }

  /** The usages of a nonempty name are, in walk order, those of the nodes that declare, expand or call it. */
  lemma {:induction false} UsagesByNode(file: Node, name: ByteString) returns (at: seq<nat>)
    requires name != []
    ensures Selects(at, Walk(file), (n: Node) => Uses(n, name)) && |at| == |Usages(file, name)|
    ensures forall i :: 0 <= i < |at| ==> IsUseAt(Walk(file)[at[i]], name, Usages(file, name)[i])
  {
    at := UsagesSelected(Walk(file), name);
  }

  // ----- declarations

  predicate IsBinding(n: Node) {
    n.Node? && (n.kind == FuncDecl || n.kind == Assign) && n.name.Some?
  }

  predicate IsDeclarationAt(n: Node, d: Declaration) {
    && IsBinding(n)
    && d.kind == (if n.kind == FuncDecl then DeclarationKind.Function else DeclarationKind.Variable)
    && d.name == n.name.value.value && d.pos == n.name.value.pos && d.end == n.name.value.end
  }

  lemma DeclarationOfNode(n: Node)
    ensures |DeclarationAt(n)| == if IsBinding(n) then 1 else 0
    ensures IsBinding(n) ==> IsDeclarationAt(n, DeclarationAt(n)[0])
  {
  }

  function Binding(): Node -> bool {
    (n: Node) => IsBinding(n)
  }

  ghost predicate AreDeclarations(ns: seq<Node>, at: seq<nat>, ds: seq<Declaration>) {
    && Selects(at, ns, Binding()) && |at| == |ds|
    && forall i :: 0 <= i < |at| ==> IsDeclarationAt(ns[at[i]], ds[i])
  }

  lemma DeclarationsOneMore(ns: seq<Node>, n: Node, at: seq<nat>, ds: seq<Declaration>) returns (more: seq<nat>)
    requires AreDeclarations(ns, at, ds)
    ensures AreDeclarations(ns + [n], more, ds + DeclarationAt(n))
  {
    more := if IsBinding(n) then at + [|ns|] else at;
    DeclarationOfNode(n);
    SelectsOneMore(at, ns, n, Binding());
    assert !IsBinding(n) ==> ds + DeclarationAt(n) == ds;
  }

  lemma {:induction false} DeclarationsSelected(ns: seq<Node>) returns (at: seq<nat>)
    ensures AreDeclarations(ns, at, DeclarationsIn(ns))
  {
    if ns == [] {
      at := [];
    } else {
      var front, last := ns[..|ns| - 1], ns[|ns| - 1];
      at := DeclarationsSelected(front);
      at := DeclarationsOneMore(front, last, at, DeclarationsIn(front));
      assert ns == front + [last];
    }
  }

  /** The declarations are, in walk order, the functions and the assignments that have a name. */
  lemma {:induction false} DeclarationsByNode(file: Node) returns (at: seq<nat>)
    ensures Selects(at, Walk(file), (n: Node) => IsBinding(n)) && |at| == |Declarations(file)|
    ensures forall i :: 0 <= i < |at| ==> IsDeclarationAt(Walk(file)[at[i]], Declarations(file)[i])
  {
    at := DeclarationsSelected(Walk(file));
  }
}
