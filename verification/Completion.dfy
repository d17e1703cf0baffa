/** Completion at the cursor: the model of internal/server/completion.go. */
module Completion {
  import opened Bytes
  import opened Utf8
  import opened LspPosition
  import opened Positions
  import opened ClientPosition
  import opened Syntax
  import opened Analyser
  import opened Edits
  import opened RenameText
  import opened Documents
  import opened Workspace
  import opened Rename

  /** Where a candidate comes from; detail, kind and text format of the item follow from it. */
  datatype Origin = LocalVariable | LocalFunction | Builtin | Executable | Reserved | Snippet

  datatype Candidate = Candidate(name: ByteString, newText: ByteString, origin: Origin)

  datatype Item = Item(name: ByteString, origin: Origin, edit: TextEdit)

  /** The word tables, and the programs on the search path that are not builtins. */
  datatype Tables = Tables(builtins: seq<ByteString>, executables: seq<ByteString>, reserved: seq<ByteString>,
                           snippets: seq<Candidate>)

  const HASH: byte := 35
  const DOLLAR: byte := 36
  const BRACE: byte := 123

  // ----- names of the file

  /** The names are those that the file assigns, each once, in byte order. */
  ghost predicate AreVariables(file: Option<Node>, names: seq<ByteString>) {
    && (forall i, j :: 0 <= i < j < |names| ==> Less(names[i], names[j]))
    && (forall x :: x in names <==> file.Some? && Assigned(Walk(file.value), x))
  }

  predicate Assigned(ns: seq<Node>, x: ByteString) {
    exists i :: 0 <= i < |ns| && Assigns(ns[i], x)
  }

  predicate Assigns(n: Node, x: ByteString) {
    n.Node? && n.kind == Assign && n.name.Some? && n.name.value.value == x
  }

  method InsertName(sorted: seq<ByteString>, x: ByteString) returns (r: seq<ByteString>)
    requires x !in sorted && forall i, j :: 0 <= i < j < |sorted| ==> Less(sorted[i], sorted[j])
    ensures forall i, j :: 0 <= i < j < |r| ==> Less(r[i], r[j])
    ensures forall y :: y in r <==> y == x || y in sorted
  {
    var k := |sorted|;
    while k > 0 && Less(x, sorted[k - 1])
      invariant 0 <= k <= |sorted| && forall j :: k <= j < |sorted| ==> Less(x, sorted[j])
    {
      k := k - 1;
    }
    forall i | 0 <= i < k ensures Less(sorted[i], x) {
      LessTotal(x, sorted[k - 1]);
      if i < k - 1 { LessTransitive(sorted[i], sorted[k - 1], x); }
    }
    r := sorted[..k] + [x] + sorted[k..];
    assert sorted == sorted[..k] + sorted[k..];
  }

  /** `localVariables`. */
  method LocalVariables(file: Option<Node>) returns (names: seq<ByteString>)
    ensures AreVariables(file, names)
  {
    names := [];
    if file.None? {
      return;
    }
    var nodes := Walk(file.value);
    for i := 0 to |nodes|
      invariant forall a, b :: 0 <= a < b < |names| ==> Less(names[a], names[b])
      invariant forall x :: x in names <==> Assigned(nodes[..i], x)
    {
      AssignedOneMore(nodes, i);
      var n := nodes[i];
      if n.CallExpr? || n.kind != Assign || n.name.None? {
        continue;
      }
      if n.name.value.value !in names {
        names := InsertName(names, n.name.value.value);
      }
    }
    assert nodes[..|nodes|] == nodes;
  }

  lemma AssignedOneMore(ns: seq<Node>, i: nat)
    requires i < |ns|
    ensures forall x :: Assigned(ns[..i + 1], x) <==> Assigned(ns[..i], x) || Assigns(ns[i], x)
  {
    forall x ensures Assigned(ns[..i + 1], x) <==> Assigned(ns[..i], x) || Assigns(ns[i], x) {
      if Assigned(ns[..i], x) {
        var k :| 0 <= k < i && Assigns(ns[..i][k], x);
        assert Assigns(ns[..i + 1][k], x);
      }
      if Assigns(ns[i], x) { assert Assigns(ns[..i + 1][i], x); }
      if Assigned(ns[..i + 1], x) {
        var k :| 0 <= k < i + 1 && Assigns(ns[..i + 1][k], x);
        if k < i { assert Assigns(ns[..i][k], x); }
      }
    }
  }

  /** The assigned names are the declared variables. */
  lemma {:induction false} AssignedIsDeclared(ns: seq<Node>, x: ByteString)
    ensures Assigned(ns, x) <==>
      exists d :: d in DeclarationsIn(ns) && d.kind == DeclarationKind.Variable && d.name == x
  {
    if ns != [] {
      var k := |ns| - 1;
      AssignedIsDeclared(ns[..k], x);
      assert ns[..k + 1] == ns;
      AssignedOneMore(ns, k);
      if Assigns(ns[k], x) {
        assert DeclarationAt(ns[k])[0] in DeclarationsIn(ns);
      }
    }
  }

  /** The functions that a statement declares. */
  function DeclaredBy(stmt: seq<Node>): seq<ByteString> {
    if stmt == [] then []
    else
      (if stmt[0].Node? && stmt[0].kind == FuncDecl && stmt[0].name.Some? then [stmt[0].name.value.value] else [])
      + DeclaredBy(stmt[1..])
  }

  /** `localFunctions`: the functions that top-level statements declare. */
  function LocalFunctions(stmts: seq<Node>): seq<ByteString> {
    if stmts == [] then []
    else (if stmts[0].Node? then DeclaredBy(stmts[0].children) else []) + LocalFunctions(stmts[1..])
  }

  function FileFunctions(file: Option<Node>): seq<ByteString> {
    if file.Some? && file.value.Node? then LocalFunctions(file.value.children) else []
  }

  // ----- candidates

  function Named(names: seq<ByteString>, origin: Origin): (r: seq<Candidate>)
    ensures |r| == |names|
  {
    seq(|names|, i requires 0 <= i < |names| => Candidate(names[i], [], origin))
  }

  /** `completionCandidates`, given the variables of the file. */
  function Candidates(variables: seq<ByteString>, file: Option<Node>, tables: Tables, varsOnly: bool): seq<Candidate> {
    if varsOnly then Named(variables, LocalVariable)
    else
      Named(variables, LocalVariable) + Named(FileFunctions(file), LocalFunction) + Named(tables.builtins, Builtin)
      + Named(tables.executables, Executable) + Named(tables.reserved, Reserved) + tables.snippets
  }

  /** No candidate before the `k`-th has its name. */
  predicate FirstNamed(cands: seq<Candidate>, k: nat)
    requires k < |cands|
  {
    forall j :: 0 <= j < k ==> cands[j].name != cands[k].name
  }

  function ItemFor(c: Candidate, range: Range): Item {
    Item(c.name, c.origin, TextEdit(range, if c.newText != [] then c.newText else c.name))
  }

  /** The item of a candidate that has the prefix and whose name no earlier candidate has. */
  ghost predicate Offered(cands: seq<Candidate>, prefix: ByteString, range: Range, it: Item) {
    exists k :: 0 <= k < |cands| && FirstNamed(cands, k) && prefix <= cands[k].name && it == ItemFor(cands[k], range)
  }

  predicate NamesIncrease(items: seq<Item>) {
    forall i, j :: 0 <= i < j < |items| ==> Less(items[i].name, items[j].name)
  }

  /** Names strictly increase, and the items are exactly those on offer. */
  ghost predicate AreCompletions(cands: seq<Candidate>, prefix: ByteString, range: Range, items: seq<Item>) {
    NamesIncrease(items) && forall it :: it in items <==> Offered(cands, prefix, range, it)
  }

  /** Candidates, prefix and range leave one list of items. */
  lemma {:induction false} CompletionsUnique(a: seq<Item>, b: seq<Item>)
    requires NamesIncrease(a) && NamesIncrease(b) && forall it :: it in a <==> it in b
    ensures a == b
  {
    if b != [] { assert b[0] in a; }
    if a != [] {
      assert a[0] in b;
      SameFirst(a, b);
      forall it ensures it in a[1..] <==> it in b[1..] {
        InTail(a, it);
        InTail(b, it);
      }
      CompletionsUnique(a[1..], b[1..]);
      assert a == [a[0]] + a[1..] && b == [b[0]] + b[1..];
    }
  }

  lemma SameFirst(a: seq<Item>, b: seq<Item>)
    requires NamesIncrease(a) && NamesIncrease(b) && a != [] && b != [] && a[0] in b && b[0] in a
    ensures a[0] == b[0]
  {
    var i :| 0 <= i < |a| && a[i] == b[0];
    var j :| 0 <= j < |b| && b[j] == a[0];
    if i > 0 && j > 0 { LessAsymmetric(a[0].name, a[i].name); }
  }

  lemma InTail(a: seq<Item>, it: Item)
    requires NamesIncrease(a) && a != []
    ensures it in a[1..] <==> it in a && it != a[0]
  {
    if a[0] in a[1..] {
      var k :| 1 <= k < |a| && a[k] == a[0];
      LessAsymmetric(a[0].name, a[k].name);
    }
    assert a == [a[0]] + a[1..];
  }

  // ----- the request

  /** `completionPrefix`. */
  method CompletionPrefix(src: ByteString, at: nat) returns (prefix: ByteString, start: nat)
    ensures var off := if at > |src| then |src| else at;
      start == WordStart(src, off) && prefix == src[start..off]
  {
    var off := at;
    if off > |src| {
      off := |src|;
    }
    start := off;
    while start > 0 && IsWordChar(src[start - 1])
      invariant start <= off && WordStart(src, start) == WordStart(src, off)
    {
      start := start - 1;
    }
    prefix := src[start..off];
  }

  /** `completionVariablesOnly`. */
  predicate VariablesOnly(src: ByteString, start: nat)
    requires start <= |src|
  {
    (start > 0 && src[start - 1] == DOLLAR) || (start > 1 && src[start - 1] == BRACE && src[start - 2] == DOLLAR)
  }

  /** The prefix consists of word bytes, so the test for a comment in `completion` never succeeds. */
  lemma {:induction false} CommentGuardNeverFires(src: ByteString, off: nat)
    requires off <= |src|
    ensures !([HASH] <= src[WordStart(src, off)..off])
  {
    WordStartClear(src, off);
    if WordStart(src, off) < off { assert IsWordChar(src[WordStart(src, off)]); }
  }

  method InsertItem(sorted: seq<Item>, it: Item) returns (r: seq<Item>)
    requires NamesIncrease(sorted) && forall i :: 0 <= i < |sorted| ==> sorted[i].name != it.name
    ensures NamesIncrease(r) && multiset(r) == multiset(sorted) + multiset{it}
  {
    var k := |sorted|;
    while k > 0 && Less(it.name, sorted[k - 1].name)
      invariant 0 <= k <= |sorted| && forall j :: k <= j < |sorted| ==> Less(it.name, sorted[j].name)
    {
      k := k - 1;
    }
    forall i | 0 <= i < k ensures Less(sorted[i].name, it.name) {
      LessTotal(it.name, sorted[k - 1].name);
      if i < k - 1 { LessTransitive(sorted[i].name, sorted[k - 1].name, it.name); }
    }
    r := sorted[..k] + [it] + sorted[k..];
    assert sorted == sorted[..k] + sorted[k..];
  }

  predicate NamesDiffer(items: seq<Item>) {
    forall i, j :: 0 <= i < j < |items| ==> items[i].name != items[j].name
  }

  /** The stable sort of `completion`; on distinct names stability leaves no choice. */
  method SortItems(items: seq<Item>) returns (r: seq<Item>)
    requires NamesDiffer(items)
    ensures NamesIncrease(r) && forall it :: it in r <==> it in items
  {
    r := [];
    for i := 0 to |items|
      invariant NamesIncrease(r) && multiset(r) == multiset(items[..i])
    {
      assert items[..i + 1] == items[..i] + [items[i]];
      forall k | 0 <= k < |r| ensures r[k].name != items[i].name {
        assert r[k] in multiset(items[..i]);
      }
      r := InsertItem(r, items[i]);
    }
    assert items[..|items|] == items;
    forall it ensures it in r <==> it in items {
      assert it in r <==> it in multiset(r);
    }
  }

  /** The items that the first `n` candidates leave. */
  ghost predicate OfferedBy(cands: seq<Candidate>, prefix: ByteString, range: Range, n: nat, it: Item)
    requires n <= |cands|
  {
    exists k :: 0 <= k < n && FirstNamed(cands, k) && prefix <= cands[k].name && it == ItemFor(cands[k], range)
  }

  /** The loop of `completion`, with its set of names seen. */
  method KeepFirst(cands: seq<Candidate>, prefix: ByteString, range: Range) returns (items: seq<Item>)
    ensures NamesDiffer(items) && forall it :: it in items <==> Offered(cands, prefix, range, it)
  {
    items := [];
    var seen: set<ByteString> := {};
    for i := 0 to |cands|
      invariant NamesDiffer(items)
      invariant forall k :: 0 <= k < |items| ==> items[k].name in seen
      invariant forall x :: x in seen <==> prefix <= x && exists k :: 0 <= k < i && cands[k].name == x
      invariant forall it :: it in items <==> OfferedBy(cands, prefix, range, i, it)
    {
      var c := cands[i];
      if c.name in seen || !(prefix <= c.name) {
        NotOffered(cands, prefix, range, i);
        continue;
      }
      assert FirstNamed(cands, i);
      OneMoreOffered(cands, prefix, range, i);
      seen := seen + {c.name};
      items := items + [ItemFor(c, range)];
    }
  }

  lemma NotOffered(cands: seq<Candidate>, prefix: ByteString, range: Range, i: nat)
    requires i < |cands| && (!(prefix <= cands[i].name) || exists k :: 0 <= k < i && cands[k].name == cands[i].name)
    ensures forall it :: OfferedBy(cands, prefix, range, i + 1, it) <==> OfferedBy(cands, prefix, range, i, it)
  {
    forall it ensures OfferedBy(cands, prefix, range, i + 1, it) <==> OfferedBy(cands, prefix, range, i, it) {
      OfferedStep(cands, prefix, range, i, it);
    }
  }

  lemma OneMoreOffered(cands: seq<Candidate>, prefix: ByteString, range: Range, i: nat)
    requires i < |cands| && FirstNamed(cands, i) && prefix <= cands[i].name
    ensures forall it ::
      OfferedBy(cands, prefix, range, i + 1, it) <==>
      OfferedBy(cands, prefix, range, i, it) || it == ItemFor(cands[i], range)
  {
    forall it
      ensures OfferedBy(cands, prefix, range, i + 1, it) <==>
        OfferedBy(cands, prefix, range, i, it) || it == ItemFor(cands[i], range)
    {
      OfferedStep(cands, prefix, range, i, it);
    }
  }

  lemma OfferedStep(cands: seq<Candidate>, prefix: ByteString, range: Range, i: nat, it: Item)
    requires i < |cands|
    ensures OfferedBy(cands, prefix, range, i + 1, it) <==>
      OfferedBy(cands, prefix, range, i, it)
        || (FirstNamed(cands, i) && prefix <= cands[i].name && it == ItemFor(cands[i], range))
  {
    if OfferedBy(cands, prefix, range, i, it) {
      var k :| 0 <= k < i && FirstNamed(cands, k) && prefix <= cands[k].name && it == ItemFor(cands[k], range);
      assert 0 <= k < i + 1;
    }
    if FirstNamed(cands, i) && prefix <= cands[i].name && it == ItemFor(cands[i], range) {
      assert 0 <= i < i + 1;
    }
  }

  /** The cursor as `completion` uses it. */
  function CursorOffset(d: Doc, enc: Encoding, pos: Position): int {
    var off := OffsetFor(d.text, enc, pos);
    if off > |d.text| then |d.text| else off
  }

  /** The answer to a completion request in a document. */
  ghost predicate IsCompletion(d: Doc, enc: Encoding, pos: Position, tables: Tables, items: seq<Item>)
    requires CursorOffset(d, enc, pos) >= 0
  {
    var off := CursorOffset(d, enc, pos);
    var start := WordStart(d.text, off);
    exists variables :: AreVariables(d.ast, variables) &&
      AreCompletions(Candidates(variables, d.ast, tables, VariablesOnly(d.text, start)), d.text[start..off],
                     Range(PositionAt(d.text, enc, start), pos), items)
  }

  /** `completion`. */
  method Complete(s: Snapshot, u: Uri, pos: Position, tables: Tables) returns (answer: Option<seq<Item>>)
    ensures answer.Some? <==> u in s.files.docs && OffsetFor(s.files.docs[u].text, s.enc, pos) >= 0
    ensures answer.Some? ==> IsCompletion(s.files.docs[u], s.enc, pos, tables, answer.value)
  {
    if u !in s.files.docs {
      return None;
    }
    var d := s.files.docs[u];
    var off := OffsetForPos(d.text, s.enc, pos);
    if off < 0 {
      return None;
    }
    var prefix, start := CompletionPrefix(d.text, off);
    CommentGuardNeverFires(d.text, CursorOffset(d, s.enc, pos));
    if [HASH] <= prefix {
      return None;
    }
    var varsOnly := VariablesOnly(d.text, start);
    var variables := LocalVariables(d.ast);
    var cands := Candidates(variables, d.ast, tables, varsOnly);
    var from := PosForOffset(d.text, s.enc, start);
    var items := KeepFirst(cands, prefix, Range(from, pos));
    items := SortItems(items);
    return Some(items);
  }

  // ----- what the answer is worth

  lemma {:induction false} SameVariables(a: seq<ByteString>, b: seq<ByteString>)
    requires forall i, j :: 0 <= i < j < |a| ==> Less(a[i], a[j])
    requires forall i, j :: 0 <= i < j < |b| ==> Less(b[i], b[j])
    requires forall x :: x in a <==> x in b
    ensures a == b
  {
    if b != [] { assert b[0] in a; }
    if a != [] {
      assert a[0] in b;
      var i :| 0 <= i < |a| && a[i] == b[0];
      var j :| 0 <= j < |b| && b[j] == a[0];
      if i > 0 && j > 0 { LessAsymmetric(a[0], a[i]); }
      forall x ensures x in a[1..] <==> x in b[1..] {
        NameInTail(a, x);
        NameInTail(b, x);
      }
      SameVariables(a[1..], b[1..]);
      assert a == [a[0]] + a[1..] && b == [b[0]] + b[1..];
    }
  }

  lemma NameInTail(a: seq<ByteString>, x: ByteString)
    requires a != [] && forall i, j :: 0 <= i < j < |a| ==> Less(a[i], a[j])
    ensures x in a[1..] <==> x in a && x != a[0]
  {
    if a[0] in a[1..] {
      var k :| 1 <= k < |a| && a[k] == a[0];
      LessAsymmetric(a[0], a[k]);
    }
    assert a == [a[0]] + a[1..];
  }

  /** The answer is a function of document, position and tables. */
  lemma CompletionUnique(d: Doc, enc: Encoding, pos: Position, tables: Tables, a: seq<Item>, b: seq<Item>)
    requires CursorOffset(d, enc, pos) >= 0 && IsCompletion(d, enc, pos, tables, a)
    requires IsCompletion(d, enc, pos, tables, b)
    ensures a == b
  {
    var off := CursorOffset(d, enc, pos);
    var start := WordStart(d.text, off);
    var prefix, range := d.text[start..off], Range(PositionAt(d.text, enc, start), pos);
    var varsOnly := VariablesOnly(d.text, start);
    var v :| AreVariables(d.ast, v) && AreCompletions(Candidates(v, d.ast, tables, varsOnly), prefix, range, a);
    var w :| AreVariables(d.ast, w) && AreCompletions(Candidates(w, d.ast, tables, varsOnly), prefix, range, b);
    SameVariables(v, w);
    CompletionsUnique(a, b);
  }

  /**
   The client means a position and the server reads it so (`ClientPositionReadIff` says when).  Then the
   edit of every item, as the client decodes it, replaces exactly the maximal run of word bytes that ends
   at the cursor; if the cursor stands on a word byte, that run begins where `WordAtOffset` says the word
   begins.  The item's name extends the bytes that are replaced.
   */
  lemma CompletionEditExact(d: Doc, enc: Encoding, pos: Position, tables: Tables, items: seq<Item>, off: nat, it: Item,
                            e: ByteEdit)
    requires Denotes(d.text, enc, pos, off) && OffsetFor(d.text, enc, pos) == off && Representable(d.text, enc)
    requires CursorOffset(d, enc, pos) >= 0 && IsCompletion(d, enc, pos, tables, items) && it in items
    ensures DecodedEdit(d.text, enc, it.edit, e) <==> e == ByteEdit(WordStart(d.text, off), off, it.edit.newText)
    ensures var start := WordStart(d.text, off);
      && (forall k :: start <= k < off ==> IsWordChar(d.text[k]))
      && (start > 0 ==> !IsWordChar(d.text[start - 1]))
      && d.text[start..off] <= it.name
      && (off < |d.text| && IsWordChar(d.text[off]) ==> exists end :: IsWordRun(d.text, off, start, end))
  {
    WordStartClear(d.text, off);
    var start := WordStart(d.text, off);
    WordStartReadable(d.text, enc, pos, off);
    if Denotes(d.text, enc, it.edit.range.start, e.start) {
      DenotesUnique(d.text, enc, it.edit.range.start, e.start, start);
    }
    if Denotes(d.text, enc, pos, e.end) { DenotesUnique(d.text, enc, pos, e.end, off); }
    if off < |d.text| && IsWordChar(d.text[off]) { WordIsRun(d.text, off); }
  }

  /** The client reads the position of the start of the word as that start. */
  lemma {:induction false} WordStartReadable(text: ByteString, enc: Encoding, pos: Position, off: nat)
    requires Denotes(text, enc, pos, off) && OffsetFor(text, enc, pos) == off
    ensures var start := WordStart(text, off); Denotes(text, enc, PositionAt(text, enc, start), start)
  {
    var start := WordStart(text, off);
    ClientPositionReadIff(text, enc, pos, off);
    WordStartAddressable(text, enc, off);
    WordStartClear(text, off);
    assert start < off ==> IsWordChar(text[start]);
    ServerPositionReadIff(text, enc, start);
  }

  lemma {:induction false} WordStartAddressable(text: ByteString, enc: Encoding, off: nat)
    requires Addressable(text, enc, off)
    ensures Addressable(text, enc, WordStart(text, off))
  {
    WordStartClear(text, off);
    if WordStart(text, off) < off { assert IsWordChar(text[WordStart(text, off)]); }
  }

  lemma FirstsOfVariables(variables: seq<ByteString>, cands: seq<Candidate>, k: nat)
    requires forall i, j :: 0 <= i < j < |variables| ==> Less(variables[i], variables[j])
    requires Named(variables, LocalVariable) <= cands && k < |variables|
    ensures FirstNamed(cands, k) && cands[k] == Candidate(variables[k], [], LocalVariable)
  {
    forall j | 0 <= j < k ensures cands[j].name != cands[k].name {
      LessAsymmetric(variables[j], variables[k]);
    }
  }

  function VariableItem(x: ByteString, range: Range): Item {
    Item(x, LocalVariable, TextEdit(range, x))
  }

  /** Every variable of the file that has the prefix is offered, as a variable, whatever else has its name. */
  lemma VariablesOffered(d: Doc, enc: Encoding, pos: Position, tables: Tables, items: seq<Item>, x: ByteString)
    requires CursorOffset(d, enc, pos) >= 0 && IsCompletion(d, enc, pos, tables, items)
    requires d.ast.Some? && Assigned(Walk(d.ast.value), x)
    requires var off := CursorOffset(d, enc, pos); d.text[WordStart(d.text, off)..off] <= x
    ensures var start := WordStart(d.text, CursorOffset(d, enc, pos));
      VariableItem(x, Range(PositionAt(d.text, enc, start), pos)) in items
    ensures forall it :: it in items && it.name == x ==> it.origin == LocalVariable
  {
    var off := CursorOffset(d, enc, pos);
    var start := WordStart(d.text, off);
    var prefix, range := d.text[start..off], Range(PositionAt(d.text, enc, start), pos);
    var varsOnly := VariablesOnly(d.text, start);
    var vars :| AreVariables(d.ast, vars)
      && AreCompletions(Candidates(vars, d.ast, tables, varsOnly), prefix, range, items);
    var cands := Candidates(vars, d.ast, tables, varsOnly);
    var k :| 0 <= k < |vars| && vars[k] == x;
    FirstsOfVariables(vars, cands, k);
    assert Offered(cands, prefix, range, VariableItem(x, range));
    forall it | it in items && it.name == x ensures it.origin == LocalVariable {
      if it != VariableItem(x, range) { NamesIdentify(items, it, VariableItem(x, range)); }
    }
  }

  lemma NamesIdentify(items: seq<Item>, a: Item, b: Item)
    requires NamesIncrease(items) && a in items && b in items && a.name == b.name
    ensures a == b
  {
    var i :| 0 <= i < |items| && items[i] == a;
    var j :| 0 <= j < |items| && items[j] == b;
    if i < j { LessAsymmetric(items[i].name, items[j].name); }
    if j < i { LessAsymmetric(items[j].name, items[i].name); }
  }
}
