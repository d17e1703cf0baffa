/** Which items a completion offers, by where their names come from. */
module CompletionItems {
  import opened Bytes
  import opened LspPosition
  import opened Positions
  import opened Syntax
  import opened Analyser
  import opened Edits
  import opened RenameText
  import opened Documents
  import opened Completion

  // ----- names

  /** A statement of the file declares the function. */
  predicate TopLevelFunction(file: Node, x: ByteString) {
    file.Node? && exists i :: 0 <= i < |file.children| && StatementDeclares(file.children[i], x)
  }

  predicate StatementDeclares(stmt: Node, x: ByteString) {
    stmt.Node? && exists j :: 0 <= j < |stmt.children| && NamesFunction(stmt.children[j], x)
  }

  predicate NamesFunction(n: Node, x: ByteString) {
    n.Node? && n.kind == FuncDecl && n.name.Some? && n.name.value.value == x
  }

  lemma {:induction false} DeclaredByIff(ns: seq<Node>, x: ByteString)
    ensures x in DeclaredBy(ns) <==> exists j :: 0 <= j < |ns| && NamesFunction(ns[j], x)
  {
    if ns != [] {
      DeclaredByIff(ns[1..], x);
      if j :| 0 <= j < |ns[1..]| && NamesFunction(ns[1..][j], x) { assert NamesFunction(ns[j + 1], x); }
      if j :| 0 <= j < |ns| && NamesFunction(ns[j], x) {
        if j > 0 { assert NamesFunction(ns[1..][j - 1], x); }
      }
    }
  }

  lemma {:induction false} LocalFunctionsIff(stmts: seq<Node>, x: ByteString)
    ensures x in LocalFunctions(stmts) <==> exists i :: 0 <= i < |stmts| && StatementDeclares(stmts[i], x)
  {
    if stmts != [] {
      LocalFunctionsIff(stmts[1..], x);
      if stmts[0].Node? { DeclaredByIff(stmts[0].children, x); }
      if i :| 0 <= i < |stmts[1..]| && StatementDeclares(stmts[1..][i], x) {
        assert StatementDeclares(stmts[i + 1], x);
      }
      if i :| 0 <= i < |stmts| && StatementDeclares(stmts[i], x) {
        if i > 0 { assert StatementDeclares(stmts[1..][i - 1], x); }
      }
    }
  }

  /** The name comes from there. */
  ghost predicate ComesFrom(file: Option<Node>, tables: Tables, origin: Origin, x: ByteString) {
    match origin
    case LocalVariable =>
      file.Some? && exists v :: v in Declarations(file.value) && v.kind == DeclarationKind.Variable && v.name == x
    case LocalFunction => file.Some? && TopLevelFunction(file.value, x)
    case Builtin => x in tables.builtins
    case Executable => x in tables.executables
    case Reserved => x in tables.reserved
    case Snippet => exists c :: c in tables.snippets && c.name == x
  }

  function Rank(origin: Origin): nat {
    match origin
    case LocalVariable => 0
    case LocalFunction => 1
    case Builtin => 2
    case Executable => 3
    case Reserved => 4
    case Snippet => 5
  }

  // ----- the first candidate of a name

  function FirstOf(cands: seq<Candidate>, x: ByteString): Option<Candidate> {
    if cands == [] then None else if cands[0].name == x then Some(cands[0]) else FirstOf(cands[1..], x)
  }

  lemma {:induction false} FirstOfAppend(a: seq<Candidate>, b: seq<Candidate>, x: ByteString)
    ensures FirstOf(a + b, x) == if FirstOf(a, x).Some? then FirstOf(a, x) else FirstOf(b, x)
  {
    if a == [] {
      assert a + b == b;
    } else {
      assert (a + b)[1..] == a[1..] + b;
      FirstOfAppend(a[1..], b, x);
    }
  }

  lemma {:induction false} FirstOfNames(names: seq<ByteString>, origin: Origin, x: ByteString)
    ensures FirstOf(Named(names, origin), x) == if x in names then Some(Candidate(x, [], origin)) else None
  {
    if names != [] {
      assert Named(names, origin)[1..] == Named(names[1..], origin);
      FirstOfNames(names[1..], origin, x);
    }
  }

  lemma {:induction false} FirstOfIff(cands: seq<Candidate>, x: ByteString, c: Candidate)
    ensures FirstOf(cands, x) == Some(c) <==>
      exists k :: 0 <= k < |cands| && FirstNamed(cands, k) && cands[k].name == x && cands[k] == c
  {
    if cands != [] {
      var rest := cands[1..];
      FirstOfIff(rest, x, c);
      if cands[0].name == x {
        assert FirstNamed(cands, 0);
      } else {
        if k :| 0 <= k < |rest| && FirstNamed(rest, k) && rest[k].name == x && rest[k] == c {
          forall j | 0 <= j < k + 1 ensures cands[j].name != x {
            if j > 0 { assert rest[j - 1].name != x; }
          }
          assert FirstNamed(cands, k + 1);
        }
        if k :| 0 <= k < |cands| && FirstNamed(cands, k) && cands[k].name == x && cands[k] == c {
          forall j | 0 <= j < k - 1 ensures rest[j].name != x { assert cands[j + 1].name != x; }
          assert FirstNamed(rest, k - 1);
        }
      }
    }
  }

  /** Each source of names counts before the next. */
  lemma {:induction false} FirstOfCandidates(variables: seq<ByteString>, file: Option<Node>, tables: Tables,
                                             x: ByteString)
    ensures FirstOf(Candidates(variables, file, tables, false), x) ==
            if x in variables then Some(Candidate(x, [], LocalVariable))
            else if x in FileFunctions(file) then Some(Candidate(x, [], LocalFunction))
            else if x in tables.builtins then Some(Candidate(x, [], Builtin))
            else if x in tables.executables then Some(Candidate(x, [], Executable))
            else if x in tables.reserved then Some(Candidate(x, [], Reserved))
            else FirstOf(tables.snippets, x)
  {
    var a, b := Named(variables, LocalVariable), Named(FileFunctions(file), LocalFunction);
    var c, d := Named(tables.builtins, Builtin), Named(tables.executables, Executable);
    var e := Named(tables.reserved, Reserved);
    FirstOfAppend(a, b, x);
    FirstOfAppend(a + b, c, x);
    FirstOfAppend(a + b + c, d, x);
    FirstOfAppend(a + b + c + d, e, x);
    FirstOfAppend(a + b + c + d + e, tables.snippets, x);
    FirstOfNames(variables, LocalVariable, x);
    FirstOfNames(FileFunctions(file), LocalFunction, x);
    FirstOfNames(tables.builtins, Builtin, x);
    FirstOfNames(tables.executables, Executable, x);
    FirstOfNames(tables.reserved, Reserved, x);
  }

  // ----- the items

  /** The word that is completed follows `$` or `${`. */
  predicate AfterDollar(text: ByteString, start: nat)
    requires start <= |text|
  {
    (start >= 1 && text[start - 1] == 36) || (start >= 2 && text[start - 2] == 36 && text[start - 1] == 123)
  }

  /** The name comes from there, and from nowhere of a lower rank. */
  ghost predicate Foremost(file: Option<Node>, tables: Tables, origin: Origin, x: ByteString) {
    && ComesFrom(file, tables, origin, x)
    && forall o :: ComesFrom(file, tables, o, x) ==> Rank(origin) <= Rank(o)
  }

  /** The first snippet of a name. */
  predicate IsSnippet(tables: Tables, k: nat, x: ByteString) {
    k < |tables.snippets| && tables.snippets[k].name == x && forall j :: 0 <= j < k ==> tables.snippets[j].name != x
  }

  function TextOf(c: Candidate): ByteString {
    if c.newText != [] then c.newText else c.name
  }

  /** What the item inserts: its name, or the text of its snippet. */
  ghost predicate InsertsRight(tables: Tables, it: Item) {
    if it.origin != Snippet then it.edit.newText == it.name
    else exists k: nat :: IsSnippet(tables, k, it.name) && it.edit.newText == TextOf(tables.snippets[k])
  }

  /**
   Outside `$` and `${` the items are exactly the variables of the file, its top-level functions, the
   builtins, the executables, the reserved words and the snippets that have the prefix, in this order
   of precedence.  Each but a snippet with a text of its own inserts its name.
   */
  lemma {:induction false} ItemsByOrigin(d: Doc, enc: Encoding, pos: Position, tables: Tables, items: seq<Item>,
                                         it: Item)
    requires CursorOffset(d, enc, pos) >= 0 && IsCompletion(d, enc, pos, tables, items)
    requires !AfterDollar(d.text, WordStart(d.text, CursorOffset(d, enc, pos)))
    requires forall c :: c in tables.snippets ==> c.origin == Snippet
    ensures var off := CursorOffset(d, enc, pos);
      var start := WordStart(d.text, off);
      it in items <==>
        && d.text[start..off] <= it.name && Foremost(d.ast, tables, it.origin, it.name)
        && it.edit.range == Range(PositionAt(d.text, enc, start), pos) && InsertsRight(tables, it)
  {
    var off := CursorOffset(d, enc, pos);
    var start := WordStart(d.text, off);
    var prefix, range := d.text[start..off], Range(PositionAt(d.text, enc, start), pos);
    var variables :| AreVariables(d.ast, variables)
      && AreCompletions(Candidates(variables, d.ast, tables, false), prefix, range, items);
    ItemsIff(variables, d.ast, tables, prefix, range, items, it);
  }

  lemma {:induction false} ItemsIff(variables: seq<ByteString>, file: Option<Node>, tables: Tables, prefix: ByteString,
                                    range: Range, items: seq<Item>, it: Item)
    requires AreVariables(file, variables) && forall c :: c in tables.snippets ==> c.origin == Snippet
    requires AreCompletions(Candidates(variables, file, tables, false), prefix, range, items)
    ensures it in items <==>
      && prefix <= it.name && Foremost(file, tables, it.origin, it.name)
      && it.edit.range == range && InsertsRight(tables, it)
  {
    OfferedIff(variables, file, tables, prefix, range, it);
  }

  lemma OfferedIff(variables: seq<ByteString>, file: Option<Node>, tables: Tables, prefix: ByteString, range: Range,
                   it: Item)
    requires AreVariables(file, variables) && forall c :: c in tables.snippets ==> c.origin == Snippet
    ensures Offered(Candidates(variables, file, tables, false), prefix, range, it) <==>
      && prefix <= it.name && Foremost(file, tables, it.origin, it.name)
      && it.edit.range == range && InsertsRight(tables, it)
  {
    var first := FirstOf(Candidates(variables, file, tables, false), it.name);
    FirstOfferedIff(Candidates(variables, file, tables, false), prefix, range, it);
    ForemostIff(variables, file, tables, it.origin, it.name);
    if first.Some? && first.value.origin == it.origin { TextOfFirst(variables, file, tables, it, first.value); }
  }

  lemma ForemostByRank(file: Option<Node>, tables: Tables, origin: Origin, x: ByteString)
    ensures Foremost(file, tables, origin, x) <==>
      && ComesFrom(file, tables, origin, x)
      && (Rank(origin) > 0 ==> !ComesFrom(file, tables, LocalVariable, x))
      && (Rank(origin) > 1 ==> !ComesFrom(file, tables, LocalFunction, x))
      && (Rank(origin) > 2 ==> !ComesFrom(file, tables, Builtin, x))
      && (Rank(origin) > 3 ==> !ComesFrom(file, tables, Executable, x))
      && (Rank(origin) > 4 ==> !ComesFrom(file, tables, Reserved, x))
  {
  }

  /** The first candidate of a name has the foremost origin of the name. */
  lemma {:induction false} ForemostIff(variables: seq<ByteString>, file: Option<Node>, tables: Tables, origin: Origin,
                                       x: ByteString)
    requires AreVariables(file, variables) && forall c :: c in tables.snippets ==> c.origin == Snippet
    ensures var first := FirstOf(Candidates(variables, file, tables, false), x);
      Foremost(file, tables, origin, x) <==> first.Some? && first.value.origin == origin
    ensures var first := FirstOf(Candidates(variables, file, tables, false), x);
      first.Some? ==> first.value.name == x
  {
    FirstOfCandidates(variables, file, tables, x);
    ForemostByRank(file, tables, origin, x);
    NamesComeFrom(variables, file, tables, x);
    SnippetsComeFrom(tables, x);
    assert ComesFrom(file, tables, Builtin, x) <==> x in tables.builtins;
    assert ComesFrom(file, tables, Executable, x) <==> x in tables.executables;
    assert ComesFrom(file, tables, Reserved, x) <==> x in tables.reserved;
    assert ComesFrom(file, tables, Snippet, x) <==> FirstOf(tables.snippets, x).Some?;
  }

  /** The item of the first candidate inserts what it should, and no other text is right. */
  lemma TextOfFirst(variables: seq<ByteString>, file: Option<Node>, tables: Tables, it: Item, c: Candidate)
    requires AreVariables(file, variables) && forall c :: c in tables.snippets ==> c.origin == Snippet
    requires FirstOf(Candidates(variables, file, tables, false), it.name) == Some(c) && c.origin == it.origin
    ensures InsertsRight(tables, it) <==> it.edit.newText == TextOf(c)
  {
    FirstOfCandidates(variables, file, tables, it.name);
    SnippetsComeFrom(tables, it.name);
    forall j: nat, k: nat | IsSnippet(tables, j, it.name) && IsSnippet(tables, k, it.name) ensures j == k {
    }
  }

  /** An item is on offer exactly if it is that of the first candidate of its name. */
  lemma {:induction false} FirstOfferedIff(cands: seq<Candidate>, prefix: ByteString, range: Range, it: Item)
    ensures Offered(cands, prefix, range, it) <==>
      FirstOf(cands, it.name).Some? && prefix <= it.name && it == ItemFor(FirstOf(cands, it.name).value, range)
  {
    if FirstOf(cands, it.name).Some? { FirstOfIff(cands, it.name, FirstOf(cands, it.name).value); }
    if Offered(cands, prefix, range, it) {
      var k :| 0 <= k < |cands| && FirstNamed(cands, k) && prefix <= cands[k].name && it == ItemFor(cands[k], range);
      FirstOfIff(cands, it.name, cands[k]);
    }
  }

  lemma NamesComeFrom(variables: seq<ByteString>, file: Option<Node>, tables: Tables, x: ByteString)
    requires AreVariables(file, variables)
    ensures x in variables <==> ComesFrom(file, tables, LocalVariable, x)
    ensures x in FileFunctions(file) <==> ComesFrom(file, tables, LocalFunction, x)
  {
    if file.Some? {
      AssignedIsDeclared(Walk(file.value), x);
      if file.value.Node? { LocalFunctionsIff(file.value.children, x); }
    }
  }

  lemma {:induction false} SnippetsComeFrom(tables: Tables, x: ByteString)
    ensures FirstOf(tables.snippets, x).Some? <==> exists c :: c in tables.snippets && c.name == x
    ensures FirstOf(tables.snippets, x).Some? ==>
              exists k: nat :: IsSnippet(tables, k, x) && tables.snippets[k] == FirstOf(tables.snippets, x).value
  {
    if FirstOf(tables.snippets, x).Some? {
      FirstOfIff(tables.snippets, x, FirstOf(tables.snippets, x).value);
      var k :| 0 <= k < |tables.snippets| && FirstNamed(tables.snippets, k) && tables.snippets[k].name == x
        && tables.snippets[k] == FirstOf(tables.snippets, x).value;
      assert IsSnippet(tables, k, x);
    }
    if c :| c in tables.snippets && c.name == x { FirstOfSome(tables.snippets, c); }
  }

  lemma {:induction false} FirstOfSome(cands: seq<Candidate>, c: Candidate)
    requires c in cands
    ensures FirstOf(cands, c.name).Some?
  {
    if cands[0].name != c.name { FirstOfSome(cands[1..], c); }
  }

  lemma FunctionForemost(file: Node, tables: Tables, x: ByteString)
    requires TopLevelFunction(file, x)
    ensures var v := exists v :: v in Declarations(file) && v.kind == DeclarationKind.Variable && v.name == x;
      Foremost(Some(file), tables, if v then LocalVariable else LocalFunction, x)
  {
    var v := exists v :: v in Declarations(file) && v.kind == DeclarationKind.Variable && v.name == x;
    assert ComesFrom(Some(file), tables, LocalVariable, x) <==> v;
    assert ComesFrom(Some(file), tables, LocalFunction, x);
  }

  /** Every top-level function with the prefix is offered outside `$`, as a function unless a variable has its name. */
  lemma FunctionsOffered(d: Doc, enc: Encoding, pos: Position, tables: Tables, items: seq<Item>, x: ByteString)
    requires CursorOffset(d, enc, pos) >= 0 && IsCompletion(d, enc, pos, tables, items)
    requires !AfterDollar(d.text, WordStart(d.text, CursorOffset(d, enc, pos)))
    requires forall c :: c in tables.snippets ==> c.origin == Snippet
    requires d.ast.Some? && TopLevelFunction(d.ast.value, x)
    requires var off := CursorOffset(d, enc, pos); d.text[WordStart(d.text, off)..off] <= x
    ensures var range := Range(PositionAt(d.text, enc, WordStart(d.text, CursorOffset(d, enc, pos))), pos);
      var v := exists v :: v in Declarations(d.ast.value) && v.kind == DeclarationKind.Variable && v.name == x;
      Item(x, if v then LocalVariable else LocalFunction, TextEdit(range, x)) in items
  {
    var range := Range(PositionAt(d.text, enc, WordStart(d.text, CursorOffset(d, enc, pos))), pos);
    var v := exists v :: v in Declarations(d.ast.value) && v.kind == DeclarationKind.Variable && v.name == x;
    FunctionForemost(d.ast.value, tables, x);
    ItemsByOrigin(d, enc, pos, tables, items,
                  Item(x, if v then LocalVariable else LocalFunction, TextEdit(range, x)));
  }

  /** After `$` or `${` the items are exactly the variables that the file declares and that have the prefix. */
  lemma OnlyVariablesOffered(d: Doc, enc: Encoding, pos: Position, tables: Tables, items: seq<Item>, it: Item)
    requires CursorOffset(d, enc, pos) >= 0 && IsCompletion(d, enc, pos, tables, items)
    requires AfterDollar(d.text, WordStart(d.text, CursorOffset(d, enc, pos)))
    ensures var off := CursorOffset(d, enc, pos);
      var start := WordStart(d.text, off);
      it in items <==>
        && d.text[start..off] <= it.name && ComesFrom(d.ast, tables, LocalVariable, it.name)
        && it == VariableItem(it.name, Range(PositionAt(d.text, enc, start), pos))
  {
    var off := CursorOffset(d, enc, pos);
    var start := WordStart(d.text, off);
    var prefix, range := d.text[start..off], Range(PositionAt(d.text, enc, start), pos);
    var variables :| AreVariables(d.ast, variables)
      && AreCompletions(Candidates(variables, d.ast, tables, true), prefix, range, items);
    NamesComeFrom(variables, d.ast, tables, it.name);
    FirstOfNames(variables, LocalVariable, it.name);
    FirstOfferedIff(Named(variables, LocalVariable), prefix, range, it);
  }
}
