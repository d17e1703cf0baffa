/**
 Parsed Bash files, as far as the analyser looks at them.

 Every node but a command call has at most one literal of its own: the name of a function or an
 assignment, the parameter of an expansion, or the literal itself.  Children are listed in the order
 in which `syntax.Walk` visits them, which need not be the order of the source.
 */
module Syntax {
  import opened Bytes
  import opened Positions

  datatype Lit = Lit(value: ByteString, pos: Pos, end: Pos)

  datatype Kind = FuncDecl | Assign | ParamExp | Word | Literal | Other

  datatype Node =
    | Node(kind: Kind, name: Option<Lit>, children: seq<Node>)
    | CallExpr(assigns: seq<Node>, args: seq<Node>)

  /** The nodes in the order in which a walk that is never cut short visits them. */
  function Walk(n: Node): seq<Node>
    decreases n, 1
  {
    match n
    case Node(_, _, children) => [n] + WalkAll(children)
    case CallExpr(assigns, args) => [n] + WalkAll(assigns) + WalkAll(args)
  }

  function WalkAll(ns: seq<Node>): seq<Node>
    decreases ns, 0
  {
    if ns == [] then [] else Walk(ns[0]) + WalkAll(ns[1..])
  }

  /** `singleLit`: a word that consists of one literal. */
  function SingleLit(word: Node): Option<Lit> {
    if word.Node? && word.kind == Word && |word.children| == 1
       && word.children[0].Node? && word.children[0].kind == Literal
    then word.children[0].name else None
  }

  /** The word is a single literal with this value. */
  predicate Spells(word: Node, value: ByteString) {
    && word.Node? && word.kind == Word && |word.children| == 1
    && word.children[0].Node? && word.children[0].kind == Literal
    && word.children[0].name.Some? && word.children[0].name.value.value == value
  }

  /** The literal that names the command of a call, if it is a single literal. */
  function Command(n: Node): Option<Lit>
    requires n.CallExpr?
  {
    if |n.args| == 0 then None else SingleLit(n.args[0])
  }

  /** All literals of a tree, in walk order. */
  function Lits(n: Node): seq<Lit>
    decreases n, 1
  {
    match n
    case Node(_, name, children) => (if name.Some? then [name.value] else []) + LitsAll(children)
    case CallExpr(assigns, args) => LitsAll(assigns) + LitsAll(args)
  }

  function LitsAll(ns: seq<Node>): seq<Lit>
    decreases ns, 0
  {
    if ns == [] then [] else Lits(ns[0]) + LitsAll(ns[1..])
  }

  /** The literal lies inside the text; it may be empty. */
  predicate LitPlaced(text: ByteString, l: Lit) {
    l.pos.offset <= l.end.offset <= |text|
  }

  predicate LitsApart(l: Lit, m: Lit) {
    l.end.offset <= m.pos.offset || m.end.offset <= l.pos.offset
  }

  predicate AllPlaced(text: ByteString, lits: seq<Lit>) {
    && (forall i :: 0 <= i < |lits| ==> LitPlaced(text, lits[i]))
    && (forall i, j :: 0 <= i < j < |lits| ==> LitsApart(lits[i], lits[j]))
  }

  /** What is assumed of the parser for all literals: they lie inside the text and do not overlap. */
  predicate Placed(text: ByteString, file: Node) {
    AllPlaced(text, Lits(file))
  }

  /** Nonempty literals of a placed tree are told apart by where they start. */
  lemma SameStart(text: ByteString, lits: seq<Lit>, i: nat, j: nat)
    requires AllPlaced(text, lits) && i < |lits| && j < |lits| && lits[i].pos.offset == lits[j].pos.offset
    requires lits[i].pos.offset < lits[i].end.offset && lits[j].pos.offset < lits[j].end.offset
    ensures i == j
  {
  }
}
