/** Resolving a name to its declaration: the model of internal/server/definition.go. */
module Definition {
  import opened Bytes
  import opened LspPosition
  import opened Positions
  import opened Syntax
  import opened Analyser
  import opened SourceGraph
  import opened Index
  import opened Documents
  import opened Workspace
  import opened RenameText
  import opened Rename

  datatype Location = Location(uri: Uri, range: Range)

  // ----- the target of a source command

  /** The target of a source command whose argument holds the offset. */
  function TargetAtOffset(n: Node, off: int): Option<ByteString> {
    if SourceTarget(n).None? then None
    else
      var lit := SingleLit(n.args[1]).value;
      if lit.pos.offset <= off < lit.end.offset then Some(lit.value) else None
  }

  /** The first nonempty such target in walk order. */
  function CursorTarget(ns: seq<Node>, off: int): Option<ByteString> {
    if ns == [] then None
    else if TargetAtOffset(ns[0], off).Some? && TargetAtOffset(ns[0], off).value != [] then TargetAtOffset(ns[0], off)
    else CursorTarget(ns[1..], off)
  }

  function SourceLocation(u: Uri, file: Node, off: int, resolve: Resolver): Option<Location> {
    var target := CursorTarget(Walk(file), off);
    if target.None? || resolve(u, target.value).None? then None
    else Some(Location(resolve(u, target.value).value, Range(Position(0, 0), Position(0, 0))))
  }

  /** `sourceDefinition`. */
  method SourceDefinition(u: Uri, file: Node, off: int, resolve: Resolver) returns (loc: Option<Location>)
    ensures loc == SourceLocation(u, file, off, resolve)
  {
    var target: ByteString := [];
    var nodes := Walk(file);
    var i := 0;
    while i < |nodes| && target == []
      invariant 0 <= i <= |nodes|
      invariant target == [] ==> CursorTarget(nodes, off) == CursorTarget(nodes[i..], off)
      invariant target != [] ==> CursorTarget(nodes, off) == Some(target)
    {
      var call := nodes[i];
      i := i + 1;
      if !call.CallExpr? || |call.args| < 2 {
        continue;
      }
      var cmd := SingleLit(call.args[0]);
      if cmd.None? || (cmd.value.value != SOURCE && cmd.value.value != DOT) {
        continue;
      }
      var arg := SingleLit(call.args[1]);
      if arg.None? || !(arg.value.pos.offset <= off < arg.value.end.offset) {
        continue;
      }
      target := arg.value.value;
    }
    if target == [] {
      return None;
    }
    var path := resolve(u, target);
    if path.None? {
      return None;
    }
    return Some(Location(path.value, Range(Position(0, 0), Position(0, 0))));
  }

  // ----- sorted declaration hits

  /** The order of `sortedDeclarationHits`: URI, then offset. */
  predicate HitBefore(a: DeclarationHit, b: DeclarationHit) {
    if a.uri != b.uri then Less(a.uri.text, b.uri.text) else a.declaration.pos.offset < b.declaration.pos.offset
  }

  lemma HitOrderTotal(a: DeclarationHit, b: DeclarationHit)
    ensures HitBefore(a, b) || HitBefore(b, a)
      || (a.uri == b.uri && a.declaration.pos.offset == b.declaration.pos.offset)
  {
    LessTotal(a.uri.text, b.uri.text);
  }

  lemma HitOrderStrict(a: DeclarationHit, b: DeclarationHit)
    requires HitBefore(a, b)
    ensures !HitBefore(b, a)
  {
    if a.uri != b.uri { LessAsymmetric(a.uri.text, b.uri.text); }
  }

  lemma HitOrderTransitive(a: DeclarationHit, b: DeclarationHit, c: DeclarationHit)
    requires HitBefore(a, b) && HitBefore(b, c)
    ensures HitBefore(a, c)
  {
    if a.uri != b.uri && b.uri != c.uri {
      LessTransitive(a.uri.text, b.uri.text, c.uri.text);
      LessAsymmetric(a.uri.text, c.uri.text);
    }
  }

  predicate SortedHits(hits: seq<DeclarationHit>) {
    forall i, j :: 0 <= i < j < |hits| ==> !HitBefore(hits[j], hits[i])
  }

  /** Where a hit goes in a sorted list. */
  method InsertHit(sorted: seq<DeclarationHit>, h: DeclarationHit) returns (r: seq<DeclarationHit>)
    requires SortedHits(sorted)
    ensures SortedHits(r) && multiset(r) == multiset(sorted) + multiset{h}
  {
    var k := |sorted|;
    while k > 0 && HitBefore(h, sorted[k - 1])
      invariant 0 <= k <= |sorted| && forall j :: k <= j < |sorted| ==> HitBefore(h, sorted[j])
    {
      k := k - 1;
    }
    InsertSorted(sorted, h, k);
    r := sorted[..k] + [h] + sorted[k..];
    assert sorted == sorted[..k] + sorted[k..];
  }

  lemma InsertSorted(sorted: seq<DeclarationHit>, h: DeclarationHit, k: nat)
    requires SortedHits(sorted) && k <= |sorted|
    requires forall j :: k <= j < |sorted| ==> HitBefore(h, sorted[j])
    requires k > 0 ==> !HitBefore(h, sorted[k - 1])
    ensures SortedHits(sorted[..k] + [h] + sorted[k..])
  {
    forall i | 0 <= i < k ensures !HitBefore(h, sorted[i]) {
      if HitBefore(h, sorted[i]) && i < k - 1 { NotBetween(h, sorted[i], sorted[k - 1]); }
    }
    forall j | k <= j < |sorted| ensures !HitBefore(sorted[j], h) {
      HitOrderStrict(h, sorted[j]);
    }
  }

  /** What comes before a hit comes before everything that does not come before that hit. */
  lemma NotBetween(h: DeclarationHit, a: DeclarationHit, b: DeclarationHit)
    requires HitBefore(h, a) && !HitBefore(b, a)
    ensures HitBefore(h, b)
  {
    HitOrderTotal(a, b);
    if HitBefore(a, b) { HitOrderTransitive(h, a, b); }
  }

  /** `sortedDeclarationHits`. */
  method SortedDeclarationHits(hits: seq<DeclarationHit>) returns (r: seq<DeclarationHit>)
    ensures SortedHits(r) && multiset(r) == multiset(hits)
  {
    r := [];
    for i := 0 to |hits|
      invariant SortedHits(r) && multiset(r) == multiset(hits[..i])
    {
      assert hits[..i + 1] == hits[..i] + [hits[i]];
      r := InsertHit(r, hits[i]);
    }
    assert hits[..|hits|] == hits;
  }

  /** No two hits share file and offset. */
  predicate DistinctHits(hits: seq<DeclarationHit>) {
    forall i, j :: 0 <= i < j < |hits| ==>
      hits[i].uri != hits[j].uri || hits[i].declaration.pos.offset != hits[j].declaration.pos.offset
  }

  /** Of distinct hits, the first of a sorted list comes before every other. */
  lemma SortedHead(a: seq<DeclarationHit>, h: DeclarationHit)
    requires SortedHits(a) && DistinctHits(a) && a != [] && h in a
    ensures h == a[0] || HitBefore(a[0], h)
  {
    var k :| 0 <= k < |a| && a[k] == h;
    HitOrderTotal(a[0], a[k]);
  }

  lemma TailMultiset(a: seq<DeclarationHit>)
    requires a != []
    ensures multiset(a[1..]) == multiset(a) - multiset{a[0]}
  {
    assert a == [a[0]] + a[1..];
  }

  lemma DistinctAnyOrder(a: seq<DeclarationHit>, b: seq<DeclarationHit>)
    requires multiset(a) == multiset(b) && DistinctHits(a)
    ensures DistinctHits(b)
  {
    forall i, j | 0 <= i < j < |b|
      ensures b[i].uri != b[j].uri || b[i].declaration.pos.offset != b[j].declaration.pos.offset
    {
      assert b[i] in multiset(a) && b[j] in multiset(a);
      var k :| 0 <= k < |a| && a[k] == b[i];
      var m :| 0 <= m < |a| && a[m] == b[j];
      if k == m {
        TwiceInMultiset(b, i, j);
        OnceInMultiset(a, k);
      }
    }
  }

  lemma OnceInMultiset(a: seq<DeclarationHit>, k: nat)
    requires DistinctHits(a) && k < |a|
    ensures multiset(a)[a[k]] == 1
  {
    var before, after := a[..k], a[k + 1..];
    assert a == before + [a[k]] + after;
    assert a[k] !in before && a[k] !in after;
    assert multiset(before)[a[k]] == 0 && multiset(after)[a[k]] == 0;
  }

  /** Distinct hits have one sorted order, whatever order they were collected in. */
  lemma {:induction false} SortedOrderUnique(a: seq<DeclarationHit>, b: seq<DeclarationHit>)
    requires SortedHits(a) && SortedHits(b) && multiset(a) == multiset(b) && DistinctHits(a)
    ensures a == b
    decreases |a|
  {
    assert |multiset(a)| == |a| && |multiset(b)| == |b|;
    if a != [] {
      SameHead(a, b);
      TailMultiset(a);
      TailMultiset(b);
      SortedOrderUnique(a[1..], b[1..]);
      assert a == [a[0]] + a[1..] && b == [b[0]] + b[1..];
    }
  }

  lemma SameHead(a: seq<DeclarationHit>, b: seq<DeclarationHit>)
    requires SortedHits(a) && SortedHits(b) && multiset(a) == multiset(b) && DistinctHits(a) && a != [] && b != []
    ensures a[0] == b[0]
  {
    DistinctAnyOrder(a, b);
    assert a[0] in multiset(b) && b[0] in multiset(a);
    SortedHead(a, b[0]);
    SortedHead(b, a[0]);
    if HitBefore(a[0], b[0]) { HitOrderStrict(a[0], b[0]); }
  }

  // ----- declarations of a file are apart

  /** The literals that nodes carry themselves. */
  function OwnLits(ns: seq<Node>): seq<Lit> {
    if ns == [] then []
    else OwnLits(ns[..|ns| - 1]) + var n := ns[|ns| - 1]; if n.Node? && n.name.Some? then [n.name.value] else []
  }

  lemma {:induction false} OwnLitsAppend(a: seq<Node>, b: seq<Node>)
    ensures OwnLits(a + b) == OwnLits(a) + OwnLits(b)
  {
    if b == [] {
      assert a + b == a;
    } else {
      assert (a + b)[..|a + b| - 1] == a + b[..|b| - 1];
      OwnLitsAppend(a, b[..|b| - 1]);
    }
  }

  lemma {:induction false} OwnLitsHead(n: Node, ns: seq<Node>)
    ensures OwnLits([n] + ns) == (if n.Node? && n.name.Some? then [n.name.value] else []) + OwnLits(ns)
  {
    assert [n][..0] == [];
    OwnLitsAppend([n], ns);
  }

  /** The literals of a tree are those its nodes carry, in walk order. */
  lemma {:induction false} LitsAreOwn(n: Node)
    ensures Lits(n) == OwnLits(Walk(n))
    decreases n, 1
  {
    if n.Node? {
      LitsAreOwnAll(n.children);
      OwnLitsHead(n, WalkAll(n.children));
    } else {
      LitsAreOwnAll(n.assigns);
      LitsAreOwnAll(n.args);
      assert Walk(n) == [n] + (WalkAll(n.assigns) + WalkAll(n.args));
      OwnLitsHead(n, WalkAll(n.assigns) + WalkAll(n.args));
      OwnLitsAppend(WalkAll(n.assigns), WalkAll(n.args));
    }
  }

  lemma {:induction false} LitsAreOwnAll(ns: seq<Node>)
    ensures LitsAll(ns) == OwnLits(WalkAll(ns))
    decreases ns, 0
  {
    if ns != [] {
      LitsAreOwn(ns[0]);
      LitsAreOwnAll(ns[1..]);
      OwnLitsAppend(Walk(ns[0]), WalkAll(ns[1..]));
    }
  }

  /** Every declaration is a literal of the nodes. */
  lemma {:induction false} DeclarationsAreLits(ns: seq<Node>, d: Declaration)
    requires d in DeclarationsIn(ns)
    ensures Lit(d.name, d.pos, d.end) in OwnLits(ns)
  {
    if d in DeclarationsIn(ns[..|ns| - 1]) { DeclarationsAreLits(ns[..|ns| - 1], d); }
  }

  /** The last of some placed literals starts where no other starts, if none is empty. */
  lemma LastApart(text: ByteString, before: seq<Lit>, last: Lit, l: Lit)
    requires AllPlaced(text, before + [last]) && l in before
    requires l.pos.offset < l.end.offset && last.pos.offset < last.end.offset
    ensures l.pos.offset != last.pos.offset
  {
    var k :| 0 <= k < |before| && before[k] == l;
    var lits := before + [last];
    assert lits[k] == l && lits[|before|] == last;
    if l.pos.offset == last.pos.offset { SameStart(text, lits, k, |before|); }
  }

  predicate NamesNonempty(ds: seq<Declaration>) {
    forall d :: d in ds ==> d.pos.offset < d.end.offset
  }

  predicate DistinctStarts(ds: seq<Declaration>) {
    forall i, j :: 0 <= i < j < |ds| ==> ds[i].pos.offset != ds[j].pos.offset
  }

  lemma {:induction false} DeclarationsApart(text: ByteString, ns: seq<Node>)
    requires AllPlaced(text, OwnLits(ns)) && NamesNonempty(DeclarationsIn(ns))
    ensures DistinctStarts(DeclarationsIn(ns))
  {
    if ns != [] {
      var front, last := ns[..|ns| - 1], ns[|ns| - 1];
      var before, ds := OwnLits(front), DeclarationsIn(front);
      assert forall i :: 0 <= i < |before| ==> before[i] == OwnLits(ns)[i];
      assert DeclarationsIn(ns) == ds + DeclarationAt(last);
      DeclarationsApart(text, front);
      if DeclarationAt(last) != [] {
        assert DeclarationAt(last)[0] in DeclarationsIn(ns);
        forall i | 0 <= i < |ds| ensures ds[i].pos.offset != last.name.value.pos.offset {
          DeclarationsAreLits(front, ds[i]);
          LastApart(text, before, last.name.value, Lit(ds[i].name, ds[i].pos, ds[i].end));
        }
      }
    }
  }

  /** What is assumed of the parser for declarations: their names cover something. */
  predicate DeclarationsPlaced(text: ByteString, file: Node) {
    Placed(text, file) && NamesNonempty(Declarations(file))
  }

  /** The declarations of such a file start at different offsets, each at a literal. */
  lemma {:induction false} DeclarationsOfFileApart(text: ByteString, file: Node)
    requires DeclarationsPlaced(text, file)
    ensures DistinctStarts(Declarations(file))
    ensures forall d :: d in Declarations(file) ==> Lit(d.name, d.pos, d.end) in Lits(file)
  {
    LitsAreOwn(file);
    DeclarationsApart(text, Walk(file));
    forall d | d in Declarations(file) ensures Lit(d.name, d.pos, d.end) in Lits(file) {
      DeclarationsAreLits(Walk(file), d);
    }
  }

  /** Hits are distinct if those of each file are. */
  lemma {:induction false} HitsDistinct(hits: seq<DeclarationHit>)
    requires forall v :: DistinctStarts(DeclarationsOf(hits, v))
    ensures DistinctHits(hits)
  {
    if hits != [] {
      var front, last := hits[..|hits| - 1], hits[|hits| - 1];
      forall v ensures DistinctStarts(DeclarationsOf(front, v)) {
        DistinctPrefix(DeclarationsOf(front, v), DeclarationsOf(hits, v));
      }
      HitsDistinct(front);
      forall i | 0 <= i < |front| && front[i].uri == last.uri
        ensures front[i].declaration.pos.offset != last.declaration.pos.offset
      {
        DeclarationHitMember(front, last.uri, front[i].declaration);
        assert front[i] == DeclarationHit(last.uri, front[i].declaration);
        var ds := DeclarationsOf(front, last.uri);
        assert front[i].declaration in ds;
        var k :| 0 <= k < |ds| && ds[k] == front[i].declaration;
        assert DeclarationsOf(hits, last.uri) == ds + [last.declaration];
        LastDistinct(ds, last.declaration, k);
      }
    }
  }

  lemma LastDistinct(ds: seq<Declaration>, d: Declaration, k: nat)
    requires DistinctStarts(ds + [d]) && k < |ds|
    ensures ds[k].pos.offset != d.pos.offset
  {
    var all := ds + [d];
    assert all[k] == ds[k] && all[|ds|] == d;
  }

  lemma DistinctPrefix(a: seq<Declaration>, b: seq<Declaration>)
    requires a <= b && DistinctStarts(b)
    ensures DistinctStarts(a)
  {
  }

  /** The files indexed for a component, with the texts that positions are rendered against. */
  ghost predicate ComponentPlaced(s: Snapshot, u: Uri) {
    forall v :: v in Component(s.files.index, s.resolve, u) && v in s.files.index ==>
      DeclarationsPlaced(TextFor(s.files, s.disk, v), s.files.index[v])
  }

  // ----- the definition request

  predicate Declares(decls: seq<Declaration>, name: ByteString) {
    exists k :: 0 <= k < |decls| && decls[k].name == name
  }

  /** `d` is the first declaration of the name. */
  predicate IsFirst(decls: seq<Declaration>, name: ByteString, d: Declaration) {
    exists k :: 0 <= k < |decls| && decls[k] == d && d.name == name && forall j :: 0 <= j < k ==> decls[j].name != name
  }

  lemma FirstUnique(decls: seq<Declaration>, name: ByteString, c: Declaration, d: Declaration)
    requires IsFirst(decls, name, c) && IsFirst(decls, name, d)
    ensures c == d
  {
    var j :| 0 <= j < |decls| && decls[j] == c && forall i :: 0 <= i < j ==> decls[i].name != name;
    var k :| 0 <= k < |decls| && decls[k] == d && forall i :: 0 <= i < k ==> decls[i].name != name;
  }

  function DeclarationLocation(s: Snapshot, u: Uri, d: Declaration): Location {
    Location(u, RangeToLsp(TextFor(s.files, s.disk, u), s.enc, d.pos, d.end))
  }

  /** `h` declares the name in another file of the component. */
  ghost predicate ForeignHit(s: Snapshot, u: Uri, name: ByteString, h: DeclarationHit) {
    h.uri != u && h.declaration.name == name &&
    h.declaration in DeclarationsReported(s.files.index, Component(s.files.index, s.resolve, u), h.uri)
  }

  /** `h` is such a hit and none comes before it. */
  ghost predicate LeastForeignHit(s: Snapshot, u: Uri, name: ByteString, h: DeclarationHit) {
    ForeignHit(s, u, name, h) && forall g :: ForeignHit(s, u, name, g) ==> !HitBefore(g, h)
  }

  /** What `definition` may answer once the cursor is on a word and on no source target. */
  ghost predicate Resolves(s: Snapshot, u: Uri, file: Node, name: ByteString, answer: Option<Location>) {
    if Declares(Declarations(file), name) then
      exists d :: IsFirst(Declarations(file), name, d) && answer == Some(DeclarationLocation(s, u, d))
    else if answer.None? then forall h :: !ForeignHit(s, u, name, h)
    else exists h :: LeastForeignHit(s, u, name, h) && answer == Some(DeclarationLocation(s, h.uri, h.declaration))
  }

  /** The whole answer. */
  ghost predicate IsDefinition(s: Snapshot, u: Uri, pos: Position, answer: Option<Location>) {
    if u !in s.files.docs || s.files.docs[u].ast.None? then answer == None
    else
      var d := s.files.docs[u];
      var off := OffsetFor(d.text, s.enc, pos);
      if off < 0 then answer == None
      else if SourceLocation(u, d.ast.value, off, s.resolve).Some? then
        answer == SourceLocation(u, d.ast.value, off, s.resolve)
      else if WordOf(d.text, off) == [] then answer == None
      else Resolves(s, u, d.ast.value, WordOf(d.text, off), answer)
  }

  /** The first loop of `definition`. */
  method FindFirst(decls: seq<Declaration>, name: ByteString) returns (r: Option<Declaration>)
    ensures r.None? <==> forall k :: 0 <= k < |decls| ==> decls[k].name != name
    ensures r.Some? ==>
              exists k :: 0 <= k < |decls| && decls[k] == r.value && decls[k].name == name
                && forall j :: 0 <= j < k ==> decls[j].name != name
  {
    for i := 0 to |decls|
      invariant forall j :: 0 <= j < i ==> decls[j].name != name
    {
      if decls[i].name != name {
        continue;
      }
      return Some(decls[i]);
    }
    return None;
  }

  ghost predicate Matches(h: DeclarationHit, u: Uri, name: ByteString) {
    h.uri != u && h.declaration.name == name
  }

  /** The hits that match are the foreign hits. */
  lemma MatchesAreForeign(s: Snapshot, u: Uri, name: ByteString, hits: seq<DeclarationHit>, sorted: seq<DeclarationHit>,
                          h: DeclarationHit)
    requires AreDeclarationHits(s.files.index, Component(s.files.index, s.resolve, u), hits)
    requires multiset(sorted) == multiset(hits)
    ensures h in sorted && Matches(h, u, name) <==> ForeignHit(s, u, name, h)
  {
    DeclarationHitMember(hits, h.uri, h.declaration);
    assert h == DeclarationHit(h.uri, h.declaration);
    assert DeclarationsOf(hits, h.uri)
        == DeclarationsReported(s.files.index, Component(s.files.index, s.resolve, u), h.uri);
    assert h in sorted <==> h in multiset(sorted);
    assert h in hits <==> h in multiset(hits);
  }

  /** `sortedDeclarationHits` gives one list, in whatever order the index is visited. */
  lemma SortedHitsUnique(s: Snapshot, u: Uri, a: seq<DeclarationHit>, b: seq<DeclarationHit>,
                         sortedA: seq<DeclarationHit>, sortedB: seq<DeclarationHit>)
    requires ComponentPlaced(s, u)
    requires AreDeclarationHits(s.files.index, Component(s.files.index, s.resolve, u), a)
    requires AreDeclarationHits(s.files.index, Component(s.files.index, s.resolve, u), b)
    requires SortedHits(sortedA) && multiset(sortedA) == multiset(a) && SortedHits(sortedB)
    requires multiset(sortedB) == multiset(b)
    ensures sortedA == sortedB
  {
    ComponentHitsDistinct(s, u, a);
    ComponentHitsDistinct(s, u, b);
    SameHits(a, b);
    DistinctAnyOrder(a, sortedA);
    SortedOrderUnique(sortedA, sortedB);
  }

  lemma ComponentHitsDistinct(s: Snapshot, u: Uri, hits: seq<DeclarationHit>)
    requires ComponentPlaced(s, u) && AreDeclarationHits(s.files.index, Component(s.files.index, s.resolve, u), hits)
    ensures DistinctHits(hits)
  {
    forall v ensures DistinctStarts(DeclarationsOf(hits, v)) {
      var c := Component(s.files.index, s.resolve, u);
      assert DeclarationsOf(hits, v) == DeclarationsReported(s.files.index, c, v);
      if v in c && v in s.files.index {
        DeclarationsOfFileApart(TextFor(s.files, s.disk, v), s.files.index[v]);
      }
    }
    HitsDistinct(hits);
  }

  /** Two collections that agree on each file hold the same hits. */
  lemma {:induction false} SameHits(a: seq<DeclarationHit>, b: seq<DeclarationHit>)
    requires DistinctHits(a) && DistinctHits(b) && forall v :: DeclarationsOf(a, v) == DeclarationsOf(b, v)
    ensures multiset(a) == multiset(b)
  {
    forall h ensures multiset(a)[h] == multiset(b)[h] {
      assert h == DeclarationHit(h.uri, h.declaration);
      DeclarationHitMember(a, h.uri, h.declaration);
      DeclarationHitMember(b, h.uri, h.declaration);
      CountOfDistinct(a, h);
      CountOfDistinct(b, h);
    }
  }

  lemma CountOfDistinct(a: seq<DeclarationHit>, h: DeclarationHit)
    requires DistinctHits(a)
    ensures multiset(a)[h] == if h in a then 1 else 0
  {
    if h in a {
      var k :| 0 <= k < |a| && a[k] == h;
      OnceInMultiset(a, k);
    }
  }

  /** The first match of the sorted hits is the least of all matches. */
  lemma FirstMatchIsLeast(s: Snapshot, u: Uri, name: ByteString, hits: seq<DeclarationHit>, sorted: seq<DeclarationHit>,
                          i: nat)
    requires AreDeclarationHits(s.files.index, Component(s.files.index, s.resolve, u), hits)
    requires SortedHits(sorted) && multiset(sorted) == multiset(hits) && i <= |sorted|
    requires forall k :: 0 <= k < i ==> !Matches(sorted[k], u, name)
    ensures i == |sorted| ==> forall h :: !ForeignHit(s, u, name, h)
    ensures i < |sorted| && Matches(sorted[i], u, name) ==> LeastForeignHit(s, u, name, sorted[i])
  {
    forall h | ForeignHit(s, u, name, h) ensures i < |sorted| && !HitBefore(h, sorted[i]) {
      MatchesAreForeign(s, u, name, hits, sorted, h);
      var k :| 0 <= k < |sorted| && sorted[k] == h;
      HitOrderTotal(h, h);
    }
    if i < |sorted| { MatchesAreForeign(s, u, name, hits, sorted, sorted[i]); }
  }

  /** The second loop of `definition`. */
  method FindForeign(s: Snapshot, u: Uri, name: ByteString, hits: seq<DeclarationHit>, sorted: seq<DeclarationHit>)
    returns (r: Option<DeclarationHit>)
    requires AreDeclarationHits(s.files.index, Component(s.files.index, s.resolve, u), hits)
    requires SortedHits(sorted) && multiset(sorted) == multiset(hits)
    ensures r.None? ==> forall h :: !ForeignHit(s, u, name, h)
    ensures r.Some? ==> LeastForeignHit(s, u, name, r.value)
  {
    var i := 0;
    while i < |sorted|
      invariant i <= |sorted| && forall k :: 0 <= k < i ==> !Matches(sorted[k], u, name)
    {
      if sorted[i].uri != u && sorted[i].declaration.name == name {
        FirstMatchIsLeast(s, u, name, hits, sorted, i);
        return Some(sorted[i]);
      }
      i := i + 1;
    }
    FirstMatchIsLeast(s, u, name, hits, sorted, i);
    return None;
  }

  /** Of the foreign hits at most one is least. */
  lemma LeastForeignHitUnique(s: Snapshot, u: Uri, name: ByteString, g: DeclarationHit, h: DeclarationHit)
    requires ComponentPlaced(s, u) && LeastForeignHit(s, u, name, g) && LeastForeignHit(s, u, name, h)
    ensures g == h
  {
    HitOrderTotal(g, h);
    var file := s.files.index[g.uri];
    DeclarationsOfFileApart(TextFor(s.files, s.disk, g.uri), file);
    var i :| 0 <= i < |Declarations(file)| && Declarations(file)[i] == g.declaration;
    var j :| 0 <= j < |Declarations(file)| && Declarations(file)[j] == h.declaration;
  }

  /**
   The answer is a function of the snapshot: it does not depend on the order in which the index is
   visited.
   */
  lemma DefinitionUnique(s: Snapshot, u: Uri, pos: Position, a: Option<Location>, b: Option<Location>)
    requires ComponentPlaced(s, u) && IsDefinition(s, u, pos, a) && IsDefinition(s, u, pos, b)
    ensures a == b
  {
    if a != b {
      var d := s.files.docs[u];
      var word := WordOf(d.text, OffsetFor(d.text, s.enc, pos));
      ResolvesUnique(s, u, d.ast.value, word, a, b);
    }
  }

  lemma ResolvesUnique(s: Snapshot, u: Uri, file: Node, name: ByteString, a: Option<Location>, b: Option<Location>)
    requires ComponentPlaced(s, u) && Resolves(s, u, file, name, a) && Resolves(s, u, file, name, b)
    ensures a == b
  {
    if Declares(Declarations(file), name) {
      var c :| IsFirst(Declarations(file), name, c) && a == Some(DeclarationLocation(s, u, c));
      var d :| IsFirst(Declarations(file), name, d) && b == Some(DeclarationLocation(s, u, d));
      FirstUnique(Declarations(file), name, c, d);
    } else if a.Some? && b.Some? {
      var g :| LeastForeignHit(s, u, name, g) && a == Some(DeclarationLocation(s, g.uri, g.declaration));
      var h :| LeastForeignHit(s, u, name, h) && b == Some(DeclarationLocation(s, h.uri, h.declaration));
      LeastForeignHitUnique(s, u, name, g, h);
    }
  }

  /** `definition`. */
  method Definition(s: Snapshot, u: Uri, pos: Position) returns (answer: Option<Location>)
    ensures IsDefinition(s, u, pos, answer)
  {
    if u !in s.files.docs || s.files.docs[u].ast.None? {
      return None;
    }
    var text, file := s.files.docs[u].text, s.files.docs[u].ast.value;
    var off := OffsetForPos(text, s.enc, pos);
    if off < 0 {
      return None;
    }
    var source := SourceDefinition(u, file, off, s.resolve);
    if source.Some? {
      return source;
    }
    var word, _, _ := WordAtOffset(text, off);
    if word == [] {
      return None;
    }
    var decls := FindDeclarations(Some(file));
    var local := FindFirst(decls, word);
    if local.Some? {
      return Some(DeclarationLocation(s, u, local.value));
    }
    var allowed := ReachableUris(s.files.index, s.resolve, u);
    var hits := DeclarationHits(s.files.index, allowed);
    var sorted := SortedDeclarationHits(hits);
    var foreign := FindForeign(s, u, word, hits, sorted);
    if foreign.None? {
      return None;
    }
    return Some(DeclarationLocation(s, foreign.value.uri, foreign.value.declaration));
  }
}
