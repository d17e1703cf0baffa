/**
 Files connected by literal `source` and `.` commands: the model of internal/analyser/index.go.

 The entries are the indexed files.  A resolver stands for joining a target to the directory of the
 sourcing file and asking the disk for it: it answers with the URI of an existing regular file.
 */
module SourceGraph {
  import opened Bytes
  import opened Positions
  import opened Syntax
  import opened Analyser

  type Entries = map<Uri, Node>

  type Resolver = (Uri, ByteString) -> Option<Uri>

  const SOURCE: ByteString := ['s' as int, 'o' as int, 'u' as int, 'r' as int, 'c' as int, 'e' as int]
  const DOT: ByteString := ['.' as int]

  // ----- edges

  /** The target of a command call that sources a literal path. */
  function SourceTarget(n: Node): Option<ByteString> {
    if !n.CallExpr? || |n.args| < 2 then None
    else if Command(n).None? || (Command(n).value.value != SOURCE && Command(n).value.value != DOT) then None
    else if SingleLit(n.args[1]).None? then None
    else Some(SingleLit(n.args[1]).value.value)
  }

  function SourcedAt(n: Node, base: Uri, resolve: Resolver): seq<Uri> {
    if SourceTarget(n).None? || resolve(base, SourceTarget(n).value).None? then []
    else [resolve(base, SourceTarget(n).value).value]
  }

  function SourcedIn(ns: seq<Node>, base: Uri, resolve: Resolver): seq<Uri> {
    if ns == [] then [] else SourcedIn(ns[..|ns| - 1], base, resolve) + SourcedAt(ns[|ns| - 1], base, resolve)
  }

  /** `sourcedURIs`; a file that is not indexed sources nothing. */
  function Sourced(entries: Entries, base: Uri, resolve: Resolver): seq<Uri> {
    if base in entries then SourcedIn(Walk(entries[base]), base, resolve) else []
  }

  method SourcedUris(base: Uri, file: Option<Node>, resolve: Resolver) returns (out: seq<Uri>)
    ensures out == if file.None? then [] else SourcedIn(Walk(file.value), base, resolve)
  {
    if file.None? {
      return [];
    }
    out := [];
    var nodes := Walk(file.value);
    for i := 0 to |nodes|
      invariant out == SourcedIn(nodes[..i], base, resolve)
    {
      assert nodes[..i + 1][..i] == nodes[..i];
      var call := nodes[i];
      if !call.CallExpr? || |call.args| < 2 {
        continue;
      }
      var cmd := SingleLit(call.args[0]);
      if cmd.None? || (cmd.value.value != SOURCE && cmd.value.value != DOT) {
        continue;
      }
      var target := SingleLit(call.args[1]);
      if target.None? {
        continue;
      }
      var path := resolve(base, target.value.value);
      if path.None? {
        continue;
      }
      out := out + [path.value];
    }
    assert nodes[..|nodes|] == nodes;
  }

  /** `a` sources `b`. */
  predicate Sources(entries: Entries, resolve: Resolver, a: Uri, b: Uri) {
    b in Sourced(entries, a, resolve)
  }

  /** One step of the component search: an indexed file that `a` sources or that sources `a`. */
  predicate Neighbour(entries: Entries, resolve: Resolver, a: Uri, b: Uri) {
    b in entries && (Sources(entries, resolve, a, b) || Sources(entries, resolve, b, a))
  }

  function Neighbours(entries: Entries, resolve: Resolver, a: Uri): set<Uri> {
    set b | b in entries && Neighbour(entries, resolve, a, b)
  }

  /** The second loop of `sourceNeighbours`: the other indexed files that source `from`. */
  method SourcingFiles(entries: Entries, from: Uri, resolve: Resolver) returns (out: set<Uri>)
    ensures out == set b | b in entries && b != from && Sources(entries, resolve, b, from)
  {
    out := {};
    var candidates := entries.Keys;
    while candidates != {}
      invariant candidates <= entries.Keys
      invariant forall b :: b in out <==>
        b in entries && b !in candidates && b != from && Sources(entries, resolve, b, from)
      decreases |candidates|
    {
      var candidate :| candidate in candidates;
      candidates := candidates - {candidate};
      if candidate == from {
        continue;
      }
      var sourced := SourcedUris(candidate, Some(entries[candidate]), resolve);
      if from in sourced {
        out := out + {candidate};
      }
    }
  }

  /** `sourceNeighbours`. */
  method SourceNeighbours(entries: Entries, from: Uri, resolve: Resolver) returns (out: set<Uri>)
    ensures out == Neighbours(entries, resolve, from)
  {
    out := {};
    var targets := SourcedUris(from, if from in entries then Some(entries[from]) else None, resolve);
    for i := 0 to |targets|
      invariant forall b :: b in out <==> b in entries && b in targets[..i]
    {
      if targets[i] in entries {
        out := out + {targets[i]};
      }
    }
    assert targets[..|targets|] == targets;
    var sourcing := SourcingFiles(entries, from, resolve);
    out := out + sourcing;
    NeighbourSides(entries, from, resolve, out);
  }

  lemma NeighbourSides(entries: Entries, from: Uri, resolve: Resolver, out: set<Uri>)
    requires forall b :: b in out <==>
      (b in entries && (Sources(entries, resolve, from, b) || (b != from && Sources(entries, resolve, b, from))))
    ensures out == Neighbours(entries, resolve, from)
  {
  }

  // ----- components

  ghost predicate IsPath(entries: Entries, resolve: Resolver, p: seq<Uri>) {
    p != [] && forall i :: 0 <= i < |p| - 1 ==> Neighbour(entries, resolve, p[i], p[i + 1])
  }

  ghost predicate PathBetween(entries: Entries, resolve: Resolver, a: Uri, b: Uri, p: seq<Uri>) {
    IsPath(entries, resolve, p) && p[0] == a && p[|p| - 1] == b
  }

  ghost predicate Connected(entries: Entries, resolve: Resolver, a: Uri, b: Uri) {
    exists p :: PathBetween(entries, resolve, a, b, p)
  }

  ghost predicate Closed(entries: Entries, resolve: Resolver, s: set<Uri>) {
    forall a, b :: a in s && Neighbour(entries, resolve, a, b) ==> b in s
  }

  /** The component of a file: what a search from it reaches. */
  ghost function Component(entries: Entries, resolve: Resolver, from: Uri): set<Uri> {
    set u | u in entries.Keys + {from} && Connected(entries, resolve, from, u)
  }

  lemma ConnectedSelf(entries: Entries, resolve: Resolver, a: Uri)
    ensures Connected(entries, resolve, a, a)
  {
    assert PathBetween(entries, resolve, a, a, [a]);
  }

  lemma ConnectedStep(entries: Entries, resolve: Resolver, a: Uri, b: Uri, c: Uri)
    requires Connected(entries, resolve, a, b) && Neighbour(entries, resolve, b, c)
    ensures Connected(entries, resolve, a, c)
  {
    var p :| PathBetween(entries, resolve, a, b, p);
    assert PathBetween(entries, resolve, a, c, p + [c]);
  }

  /** What is reached is the start or an indexed file. */
  lemma ConnectedIndexed(entries: Entries, resolve: Resolver, a: Uri, b: Uri)
    requires Connected(entries, resolve, a, b)
    ensures b == a || b in entries
  {
    var p :| PathBetween(entries, resolve, a, b, p);
    if |p| > 1 { assert Neighbour(entries, resolve, p[|p| - 2], p[|p| - 1]); }
  }

  /** A closed set that holds the start holds everything reached from it. */
  lemma ClosedHoldsReached(entries: Entries, resolve: Resolver, s: set<Uri>, a: Uri, b: Uri)
    requires Closed(entries, resolve, s) && a in s && Connected(entries, resolve, a, b)
    ensures b in s
  {
    var p :| PathBetween(entries, resolve, a, b, p);
    ClosedHoldsPath(entries, resolve, s, p, |p| - 1);
  }

  lemma {:induction false} ClosedHoldsPath(entries: Entries, resolve: Resolver, s: set<Uri>, p: seq<Uri>, k: nat)
    requires Closed(entries, resolve, s) && IsPath(entries, resolve, p) && p[0] in s && k < |p|
    ensures p[k] in s
  {
    if k > 0 {
      ClosedHoldsPath(entries, resolve, s, p, k - 1);
      assert Neighbour(entries, resolve, p[k - 1], p[k]);
    }
  }

  /** The component is the least set that holds the start and is closed under neighbours. */
  lemma ComponentIsLeast(entries: Entries, resolve: Resolver, from: Uri)
    ensures from in Component(entries, resolve, from) && Closed(entries, resolve, Component(entries, resolve, from))
    ensures forall s :: from in s && Closed(entries, resolve, s) ==> Component(entries, resolve, from) <= s
    ensures forall u :: u in Component(entries, resolve, from) <==> Connected(entries, resolve, from, u)
  {
    var c := Component(entries, resolve, from);
    ConnectedSelf(entries, resolve, from);
    forall u | Connected(entries, resolve, from, u) ensures u in c {
      ConnectedIndexed(entries, resolve, from, u);
    }
    forall a, b | a in c && Neighbour(entries, resolve, a, b) ensures b in c {
      ConnectedStep(entries, resolve, from, a, b);
    }
    forall s | from in s && Closed(entries, resolve, s) ensures c <= s {
      forall u | u in c ensures u in s { ClosedHoldsReached(entries, resolve, s, from, u); }
    }
  }

  /** The inner loop of `reachableURIs`: unseen neighbours are marked and queued, in any order. */
  method Enqueue(neighbours: set<Uri>, seen: set<Uri>, queue: seq<Uri>) returns (seen': set<Uri>, queue': seq<Uri>)
    ensures seen' == seen + neighbours
    ensures forall u :: u in queue' <==> u in queue || (u in neighbours && u !in seen)
    ensures seen' == seen ==> queue' == queue
  {
    seen', queue' := seen, queue;
    var pending := neighbours;
    while pending != {}
      invariant pending <= neighbours && seen <= seen' <= seen + neighbours && neighbours - pending <= seen'
      invariant forall u :: u in queue' <==> u in queue || (u in seen' && u !in seen)
      invariant seen' == seen ==> queue' == queue
      decreases |pending|
    {
      var next :| next in pending;
      pending := pending - {next};
      if next in seen' {
        continue;
      }
      seen' := seen' + {next};
      queue' := queue' + [next];
    }
  }

  /** `reachableURIs`: the breadth-first search finds exactly the component, on any graph. */
  method ReachableUris(entries: Entries, resolve: Resolver, from: Uri) returns (seen: set<Uri>)
    ensures seen == Component(entries, resolve, from)
  {
    seen := {from};
    var queue := [from];
    ComponentIsLeast(entries, resolve, from);
    while |queue| > 0
      invariant from in seen && seen <= Component(entries, resolve, from)
      invariant forall u :: u in queue ==> u in seen
      invariant forall a :: a in seen && a !in queue ==> Neighbours(entries, resolve, a) <= seen
      decreases Component(entries, resolve, from) - seen, |queue|
    {
      var cur := queue[0];
      queue := queue[1..];
      var neighbours := SourceNeighbours(entries, cur, resolve);
      seen, queue := Enqueue(neighbours, seen, queue);
    }
    NeighboursWithin(entries, resolve, seen);
  }

  lemma NeighboursWithin(entries: Entries, resolve: Resolver, s: set<Uri>)
    requires forall a :: a in s ==> Neighbours(entries, resolve, a) <= s
    ensures Closed(entries, resolve, s)
  {
    forall a, b | a in s && Neighbour(entries, resolve, a, b) ensures b in s {
      assert b in Neighbours(entries, resolve, a);
    }
  }

  // ----- components partition the index

  /** The neighbour relation is symmetric exactly among indexed files. */
  lemma NeighbourSymmetric(entries: Entries, resolve: Resolver, a: Uri, b: Uri)
    requires Neighbour(entries, resolve, a, b)
    ensures Neighbour(entries, resolve, b, a) <==> a in entries
  {
  }

  /** The one-sided case: a file that is not indexed is found from nowhere, whatever it is found from sources. */
  lemma NotIndexedNotFound(entries: Entries, resolve: Resolver, a: Uri, b: Uri)
    requires b !in entries && a != b
    ensures b !in Component(entries, resolve, a)
  {
    if Connected(entries, resolve, a, b) { ConnectedIndexed(entries, resolve, a, b); }
  }

  /** What a search from `b` finds, finds `b` again exactly if `b` is indexed, or is where the search starts. */
  lemma FoundBackIff(entries: Entries, resolve: Resolver, a: Uri, b: Uri)
    requires a in Component(entries, resolve, b)
    ensures b in Component(entries, resolve, a) <==> b in entries || a == b
  {
    ComponentIsLeast(entries, resolve, a);
    ComponentIsLeast(entries, resolve, b);
    if b in entries {
      ConnectedSymmetric(entries, resolve, b, a);
    } else if a != b {
      NotIndexedNotFound(entries, resolve, a, b);
    }
  }

  lemma {:induction false} BackAlongPath(entries: Entries, resolve: Resolver, p: seq<Uri>, k: nat)
    requires IsPath(entries, resolve, p) && p[0] in entries && k < |p|
    ensures p[k] in entries && Connected(entries, resolve, p[k], p[0])
  {
    if k == 0 {
      ConnectedSelf(entries, resolve, p[0]);
    } else {
      BackAlongPath(entries, resolve, p, k - 1);
      assert Neighbour(entries, resolve, p[k - 1], p[k]);
      NeighbourSymmetric(entries, resolve, p[k - 1], p[k]);
      ConnectedSelf(entries, resolve, p[k]);
      ConnectedStep(entries, resolve, p[k], p[k], p[k - 1]);
      ConnectedTransitive(entries, resolve, p[k], p[k - 1], p[0]);
    }
  }

  lemma ConnectedTransitive(entries: Entries, resolve: Resolver, a: Uri, b: Uri, c: Uri)
    requires Connected(entries, resolve, a, b) && Connected(entries, resolve, b, c)
    ensures Connected(entries, resolve, a, c)
  {
    ComponentIsLeast(entries, resolve, a);
    ClosedHoldsReached(entries, resolve, Component(entries, resolve, a), b, c);
  }

  lemma ConnectedSymmetric(entries: Entries, resolve: Resolver, a: Uri, b: Uri)
    requires a in entries && Connected(entries, resolve, a, b)
    ensures b in entries && Connected(entries, resolve, b, a)
  {
    var p :| PathBetween(entries, resolve, a, b, p);
    BackAlongPath(entries, resolve, p, |p| - 1);
  }

  /** Every member of the component of an indexed file has that same component. */
  lemma ComponentsPartition(entries: Entries, resolve: Resolver, a: Uri, b: Uri)
    requires a in entries && b in Component(entries, resolve, a)
    ensures b in entries && Component(entries, resolve, b) == Component(entries, resolve, a)
  {
    ConnectedSymmetric(entries, resolve, a, b);
    ComponentIsLeast(entries, resolve, a);
    ComponentIsLeast(entries, resolve, b);
    forall u ensures u in Component(entries, resolve, a) <==> u in Component(entries, resolve, b) {
      if Connected(entries, resolve, a, u) { ConnectedTransitive(entries, resolve, b, a, u); }
      if Connected(entries, resolve, b, u) { ConnectedTransitive(entries, resolve, a, b, u); }
    }
  }

  // ----- indexing one more file

  /** The files of the old index next to a file that is being added. */
  function Adjacent(entries: Entries, resolve: Resolver, u: Uri, file: Node): set<Uri> {
    set w | w in entries && Neighbour(entries[u := file], resolve, u, w)
  }

  /** Adding a file changes no edge between the others. */
  lemma EdgesKept(entries: Entries, resolve: Resolver, u: Uri, file: Node, a: Uri, b: Uri)
    requires u !in entries && a in entries && b in entries
    ensures Neighbour(entries[u := file], resolve, a, b) <==> Neighbour(entries, resolve, a, b)
  {
    assert Sourced(entries[u := file], a, resolve) == Sourced(entries, a, resolve);
    assert Sourced(entries[u := file], b, resolve) == Sourced(entries, b, resolve);
  }

  /** The old component stays within the new one. */
  lemma ComponentGrows(entries: Entries, resolve: Resolver, u: Uri, file: Node, v: Uri)
    requires u !in entries && v in entries
    ensures Component(entries, resolve, v) <= Component(entries[u := file], resolve, v)
  {
    var more := entries[u := file];
    var c := Component(more, resolve, v);
    ComponentIsLeast(more, resolve, v);
    ComponentIsLeast(entries, resolve, v);
    var s := c * entries.Keys;
    forall a, b | a in s && Neighbour(entries, resolve, a, b) ensures b in s {
      EdgesKept(entries, resolve, u, file, a, b);
      assert Neighbour(more, resolve, a, b);
    }
    assert Closed(entries, resolve, s);
  }

  /** A component that holds no file adjacent to the new one is left as it was. */
  lemma OtherComponentsKept(entries: Entries, resolve: Resolver, u: Uri, file: Node, v: Uri)
    requires u !in entries && v in entries
    requires Component(entries, resolve, v) !! Adjacent(entries, resolve, u, file)
    ensures Component(entries[u := file], resolve, v) == Component(entries, resolve, v)
  {
    var more := entries[u := file];
    var c := Component(entries, resolve, v);
    ComponentGrows(entries, resolve, u, file, v);
    ComponentIsLeast(entries, resolve, v);
    ComponentIsLeast(more, resolve, v);
    forall a, b | a in c && Neighbour(more, resolve, a, b) ensures b in c {
      if b == u {
        NeighbourSymmetric(more, resolve, a, u);
        assert false;
      } else {
        EdgesKept(entries, resolve, u, file, a, b);
      }
    }
  }

  /** The file and the old components of the files adjacent to it. */
  ghost function Merged(entries: Entries, resolve: Resolver, u: Uri, file: Node): set<Uri> {
    {u} + set w, v | w in Adjacent(entries, resolve, u, file) && v in Component(entries, resolve, w) :: v
  }

  /** Adding an absent file merges exactly the components of the files adjacent to it. */
  lemma AddedFileMerges(entries: Entries, resolve: Resolver, u: Uri, file: Node)
    requires u !in entries
    ensures Component(entries[u := file], resolve, u) == Merged(entries, resolve, u, file)
  {
    var more := entries[u := file];
    var m, c := Merged(entries, resolve, u, file), Component(more, resolve, u);
    ComponentIsLeast(more, resolve, u);
    forall a, b | a in m && Neighbour(more, resolve, a, b) ensures b in m {
      MergedStep(entries, resolve, u, file, a, b);
    }
    assert Closed(more, resolve, m);
    forall w, v | w in Adjacent(entries, resolve, u, file) && v in Component(entries, resolve, w) ensures v in c {
      ComponentGrows(entries, resolve, u, file, w);
      ComponentIsLeast(more, resolve, w);
      assert w in c;
      ConnectedTransitive(more, resolve, u, w, v);
    }
  }

  lemma MergedStep(entries: Entries, resolve: Resolver, u: Uri, file: Node, a: Uri, b: Uri)
    requires u !in entries && a in Merged(entries, resolve, u, file) && Neighbour(entries[u := file], resolve, a, b)
    ensures b in Merged(entries, resolve, u, file)
  {
    if b != u {
      ComponentIsLeast(entries, resolve, b);
      if a == u {
        assert b in Adjacent(entries, resolve, u, file);
      } else {
        var w :| w in Adjacent(entries, resolve, u, file) && a in Component(entries, resolve, w);
        ComponentIsLeast(entries, resolve, w);
        ConnectedIndexed(entries, resolve, w, a);
        EdgesKept(entries, resolve, u, file, a, b);
      }
    }
  }
}
