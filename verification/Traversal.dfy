/**
 The order in which a walk visits a tree: each node before what is below it, and what is below it from
 left to right.  A node is named by the path that leads to it.
 */
module Traversal {
  import opened Bytes
  import opened Syntax

  type Path = seq<nat>

  function Below(n: Node): seq<Node> {
    match n
    case Node(_, _, children) => children
    case CallExpr(assigns, args) => assigns + args
  }

  /** The path leads from `n` to `m`. */
  predicate LeadsTo(n: Node, p: Path, m: Node)
    decreases |p|
  {
    if p == [] then m == n else p[0] < |Below(n)| && LeadsTo(Below(n)[p[0]], p[1..], m)
  }

  /** The order of paths: a path before its extensions, and to the left before to the right. */
  predicate Before(p: Path, q: Path) {
    q != [] && (p == [] || p[0] < q[0] || (p[0] == q[0] && Before(p[1..], q[1..])))
  }

  ghost predicate InOrder(ps: seq<Path>) {
    forall i, j :: 0 <= i < j < |ps| ==> Before(ps[i], ps[j])
  }

  /** The nodes are those of the tree, each path once and in order. */
  ghost predicate Visits(n: Node, ps: seq<Path>, ms: seq<Node>) {
    && |ps| == |ms| && InOrder(ps)
    && (forall i :: 0 <= i < |ps| ==> LeadsTo(n, ps[i], ms[i]))
    && (forall p, m :: LeadsTo(n, p, m) ==> p in ps)
  }

  /** The path leads into one of several trees, counted from `k`. */
  predicate LeadsInto(ns: seq<Node>, k: nat, p: Path, m: Node) {
    p != [] && k <= p[0] < k + |ns| && LeadsTo(ns[p[0] - k], p[1..], m)
  }

  ghost predicate VisitsAll(ns: seq<Node>, k: nat, ps: seq<Path>, ms: seq<Node>) {
    && |ps| == |ms| && InOrder(ps)
    && (forall i :: 0 <= i < |ps| ==> LeadsInto(ns, k, ps[i], ms[i]))
    && (forall p, m :: LeadsInto(ns, k, p, m) ==> p in ps)
  }

  lemma VisitOne(n: Node, k: nat, ps: seq<Path>, ms: seq<Node>) returns (qs: seq<Path>)
    requires Visits(n, ps, ms)
    ensures VisitsAll([n], k, qs, ms)
  {
    qs := seq(|ps|, i requires 0 <= i < |ps| => [k] + ps[i]);
    forall i | 0 <= i < |qs| ensures qs[i][1..] == ps[i] {
    }
    forall p, m | LeadsInto([n], k, p, m) ensures p in qs {
      assert p[1..] in ps;
      var i :| 0 <= i < |ps| && ps[i] == p[1..];
      assert qs[i] == p;
    }
  }

  lemma VisitBoth(a: seq<Node>, b: seq<Node>, k: nat, ps: seq<Path>, ms: seq<Node>, qs: seq<Path>, xs: seq<Node>)
    requires VisitsAll(a, k, ps, ms) && VisitsAll(b, k + |a|, qs, xs)
    ensures VisitsAll(a + b, k, ps + qs, ms + xs)
  {
    forall p, m | LeadsInto(a + b, k, p, m) ensures p in ps + qs {
      assert LeadsInto(a, k, p, m) || LeadsInto(b, k + |a|, p, m);
    }
    forall i | 0 <= i < |ps + qs| ensures LeadsInto(a + b, k, (ps + qs)[i], (ms + xs)[i]) {
      if i < |ps| {
        assert LeadsInto(a, k, ps[i], ms[i]);
      } else {
        assert LeadsInto(b, k + |a|, qs[i - |ps|], xs[i - |ps|]);
      }
    }
    forall i, j | 0 <= i < j < |ps + qs| ensures Before((ps + qs)[i], (ps + qs)[j]) {
      if i < |ps| <= j {
        assert LeadsInto(a, k, ps[i], ms[i]) && LeadsInto(b, k + |a|, qs[j - |ps|], xs[j - |ps|]);
      }
    }
  }

  lemma VisitRoot(n: Node, ps: seq<Path>, ms: seq<Node>)
    requires VisitsAll(Below(n), 0, ps, ms)
    ensures Visits(n, [[]] + ps, [n] + ms)
  {
    var qs, xs := [[]] + ps, [n] + ms;
    forall i | 0 <= i < |qs| ensures LeadsTo(n, qs[i], xs[i]) {
      if i > 0 { assert LeadsInto(Below(n), 0, ps[i - 1], ms[i - 1]); }
    }
    forall p, m | LeadsTo(n, p, m) ensures p in qs {
      if p == [] {
        assert qs[0] == p;
      } else {
        assert LeadsInto(Below(n), 0, p, m);
      }
    }
    forall i, j | 0 <= i < j < |qs| ensures Before(qs[i], qs[j]) {
      assert LeadsInto(Below(n), 0, ps[j - 1], ms[j - 1]);
      if i > 0 { assert Before(ps[i - 1], ps[j - 1]); }
    }
  }

  /** A walk visits every node of the tree, once for every path to it, in the order of the paths. */
  lemma {:induction false} WalkInOrder(n: Node) returns (ps: seq<Path>)
    ensures Visits(n, ps, Walk(n))
    decreases n, 1
  {
    match n
    case Node(_, _, children) =>
      ps := WalkAllInOrder(children, 0);
      VisitRoot(n, ps, WalkAll(children));
      ps := [[]] + ps;
    case CallExpr(assigns, args) =>
      ps := WalkAllInOrder(assigns, 0);
      var qs := WalkAllInOrder(args, |assigns|);
      VisitBoth(assigns, args, 0, ps, WalkAll(assigns), qs, WalkAll(args));
      VisitRoot(n, ps + qs, WalkAll(assigns) + WalkAll(args));
      assert Walk(n) == [n] + (WalkAll(assigns) + WalkAll(args));
      ps := [[]] + (ps + qs);
  }

  lemma {:induction false} WalkAllInOrder(ns: seq<Node>, k: nat) returns (ps: seq<Path>)
    ensures VisitsAll(ns, k, ps, WalkAll(ns))
    decreases ns, 0
  {
    if ns == [] {
      ps := [];
    } else {
      ps := WalkInOrder(ns[0]);
      ps := VisitOne(ns[0], k, ps, Walk(ns[0]));
      var qs := WalkAllInOrder(ns[1..], k + 1);
      VisitBoth([ns[0]], ns[1..], k, ps, Walk(ns[0]), qs, WalkAll(ns[1..]));
      assert ns == [ns[0]] + ns[1..];
      ps := ps + qs;
    }
  }
}
