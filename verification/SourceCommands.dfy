/**
 Source commands by their bytes: which calls source a file, which files such calls connect, and that
 nothing else does.
 */
module SourceCommands {
  import opened Bytes
  import opened Syntax
  import opened SourceGraph

  /** A call of `.` or `source` whose argument is the literal `target`. */
  predicate CallsSource(n: Node, target: ByteString) {
    && n.CallExpr? && |n.args| >= 2
    && (Spells(n.args[0], [46]) || Spells(n.args[0], [115, 111, 117, 114, 99, 101]))
    && Spells(n.args[1], target)
  }

  lemma TargetIff(n: Node, target: ByteString)
    ensures SourceTarget(n) == Some(target) <==> CallsSource(n, target)
  {
  }

  /** The node sources a target that resolves to `b`. */
  ghost predicate CallsFileAt(n: Node, base: Uri, resolve: Resolver, b: Uri) {
    exists target :: CallsSource(n, target) && resolve(base, target) == Some(b)
  }

  /** Some call of the indexed file `a` does. */
  ghost predicate CallsFile(entries: Entries, resolve: Resolver, a: Uri, b: Uri) {
    a in entries && exists i :: 0 <= i < |Walk(entries[a])| && CallsFileAt(Walk(entries[a])[i], a, resolve, b)
  }

  lemma {:induction false} SourcedInIff(ns: seq<Node>, base: Uri, resolve: Resolver, b: Uri)
    ensures b in SourcedIn(ns, base, resolve) <==> exists i :: 0 <= i < |ns| && CallsFileAt(ns[i], base, resolve, b)
  {
    if ns != [] {
      var front, last := ns[..|ns| - 1], ns[|ns| - 1];
      SourcedInIff(front, base, resolve, b);
      SourcedAtIff(last, base, resolve, b);
      if b in SourcedIn(front, base, resolve) {
        var i :| 0 <= i < |front| && CallsFileAt(front[i], base, resolve, b);
        assert ns[i] == front[i];
      }
      if i :| 0 <= i < |ns| && CallsFileAt(ns[i], base, resolve, b) {
        if i < |front| { assert front[i] == ns[i]; }
      }
    }
  }

  lemma SourcedAtIff(n: Node, base: Uri, resolve: Resolver, b: Uri)
    ensures b in SourcedAt(n, base, resolve) <==> CallsFileAt(n, base, resolve, b)
  {
    if SourceTarget(n).Some? { TargetIff(n, SourceTarget(n).value); }
    forall target | CallsSource(n, target) ensures SourceTarget(n) == Some(target) { TargetIff(n, target); }
  }

  /** A file sources exactly what its calls of `.` and `source` with a literal argument resolve to. */
  lemma SourcesIff(entries: Entries, resolve: Resolver, a: Uri, b: Uri)
    ensures Sources(entries, resolve, a, b) <==> CallsFile(entries, resolve, a, b)
  {
    if a in entries { SourcedInIff(Walk(entries[a]), a, resolve, b); }
  }

  /** One of the files calls the other. */
  ghost predicate Linked(entries: Entries, resolve: Resolver, a: Uri, b: Uri) {
    CallsFile(entries, resolve, a, b) || CallsFile(entries, resolve, b, a)
  }

  /**
   The component of a file, without the search: the least set that holds the file and, with any file,
   every indexed one that it calls or that calls it.
   */
  lemma ComponentOfCommands(entries: Entries, resolve: Resolver, from: Uri)
    ensures var c := Component(entries, resolve, from);
      from in c && forall a, b :: a in c && b in entries && Linked(entries, resolve, a, b) ==> b in c
    ensures forall s: set<Uri> ::
      from in s && (forall a, b :: a in s && b in entries && Linked(entries, resolve, a, b) ==> b in s) ==>
        Component(entries, resolve, from) <= s
  {
    ComponentIsLeast(entries, resolve, from);
    forall a, b ensures Neighbour(entries, resolve, a, b) <==> b in entries && Linked(entries, resolve, a, b) {
      SourcesIff(entries, resolve, a, b);
      SourcesIff(entries, resolve, b, a);
    }
    forall s: set<Uri> |
      from in s && forall a, b :: a in s && b in entries && Linked(entries, resolve, a, b) ==> b in s
      ensures Component(entries, resolve, from) <= s
    {
      assert Closed(entries, resolve, s);
    }
  }

  /** A literal `.` or `source` command puts both files into one component, whichever is asked about. */
  lemma CommandConnects(entries: Entries, resolve: Resolver, a: Uri, b: Uri, i: nat, target: ByteString)
    requires a in entries && b in entries && i < |Walk(entries[a])|
    requires CallsSource(Walk(entries[a])[i], target) && resolve(a, target) == Some(b)
    ensures b in Component(entries, resolve, a) && a in Component(entries, resolve, b)
  {
    assert CallsFileAt(Walk(entries[a])[i], a, resolve, b);
    ComponentOfCommands(entries, resolve, a);
    ComponentOfCommands(entries, resolve, b);
    assert Linked(entries, resolve, a, b) && Linked(entries, resolve, b, a);
  }

  /** Without such a command a file sources nothing, whatever else it calls. */
  lemma {:induction false} NoCommandNothingSourced(file: Node, base: Uri, resolve: Resolver)
    requires forall i, target :: 0 <= i < |Walk(file)| ==> !CallsSource(Walk(file)[i], target)
    ensures SourcedIn(Walk(file), base, resolve) == []
  {
    if SourcedIn(Walk(file), base, resolve) != [] {
      SourcedInIff(Walk(file), base, resolve, SourcedIn(Walk(file), base, resolve)[0]);
    }
  }
}
