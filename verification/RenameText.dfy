/**
 Rename seen on texts: the edits of internal/server/rename.go, sent as LSP ranges, decoded by the
 client and applied all at once, produce the text of the renamed tree.
 */
module RenameText {
  import opened Bytes
  import opened Utf8
  import opened LspPosition
  import opened Positions
  import opened ClientPosition
  import opened Syntax
  import opened Analyser
  import opened Edits
  import opened RenameTree

  datatype TextEdit = TextEdit(range: Range, newText: ByteString)

  function RenamedText(text: ByteString, file: Node, name: ByteString, newName: ByteString): ByteString
    requires name != []
  {
    Replaced(text, UsageSites(file, name), name, newName)
  }

  /** Where a parser position of the old text is in the new one. */
  function MovedPos(text: ByteString, file: Node, name: ByteString, newName: ByteString, p: Pos): Pos
    requires name != []
  {
    if p.offset <= |text| then
      var r := RenamedText(text, file, name, newName);
      var off := Shift(text, UsageSites(file, name), name, newName, p.offset);
      if off <= |r| then PosAt(r, off) else p
    else p
  }

  function Mover(text: ByteString, file: Node, name: ByteString, newName: ByteString): Pos -> Pos
    requires name != []
  {
    p => MovedPos(text, file, name, newName, p)
  }

  /** The tree of the edited file. */
  function RenamedFile(text: ByteString, file: Node, name: ByteString, newName: ByteString): Node
    requires name != []
  {
    Relocate(RenameNode(file, name, newName), Mover(text, file, name, newName))
  }

  // ----- usages are marked literals, and their spans are apart

  lemma {:induction false} PickMember(lits: seq<Lit>, marks: seq<bool>, x: Lit)
    requires |lits| == |marks|
    ensures x in Pick(lits, marks) <==> exists i :: 0 <= i < |lits| && marks[i] && lits[i] == x
  {
    if lits != [] {
      PickMember(lits[1..], marks[1..], x);
      if i :| 0 <= i < |lits| && marks[i] && lits[i] == x {
        if i > 0 { assert marks[1..][i - 1] && lits[1..][i - 1] == x; }
      }
      if i :| 0 <= i < |lits[1..]| && marks[1..][i] && lits[1..][i] == x {
        assert marks[i + 1] && lits[i + 1] == x;
      }
    }
  }

  lemma {:induction false} PickOnce(lits: seq<Lit>, marks: seq<bool>, x: Lit)
    requires |lits| == |marks| && forall i, j :: 0 <= i < j < |lits| && lits[i] == x ==> lits[j] != x
    ensures multiset(Pick(lits, marks))[x] <= 1
  {
    if lits != [] {
      PickOnce(lits[1..], marks[1..], x);
      if lits[0] == x && x in Pick(lits[1..], marks[1..]) {
        PickMember(lits[1..], marks[1..], x);
      }
    }
  }

  /** A usage is a marked literal of the file. */
  lemma UsageIsLit(file: Node, name: ByteString, i: nat) returns (k: nat)
    requires name != [] && i < |Usages(file, name)|
    ensures |UsageLits(Walk(file), name)| == |Usages(file, name)|
    ensures k < |Lits(file)| && Marks(file, name)[k] && Lits(file)[k] == UsageLits(Walk(file), name)[i]
    ensures var u, l := Usages(file, name)[i], Lits(file)[k]; u.pos == l.pos && u.end == l.end && l.value == name
  {
    UsagesAreLits(Walk(file), name);
    MarkedAreUsages(file, name);
    var l := UsageLits(Walk(file), name)[i];
    assert l in multiset(Pick(Lits(file), Marks(file, name)));
    PickMember(Lits(file), Marks(file, name), l);
    k :| 0 <= k < |Lits(file)| && Marks(file, name)[k] && Lits(file)[k] == l;
  }

  /** A marked literal is a usage. */
  lemma LitIsUsage(file: Node, name: ByteString, k: nat) returns (i: nat)
    requires name != [] && k < |Lits(file)| && Marks(file, name)[k]
    ensures i < |Usages(file, name)| && Lits(file)[k].value == name
    ensures Usages(file, name)[i].pos == Lits(file)[k].pos && Usages(file, name)[i].end == Lits(file)[k].end
  {
    UsagesAreLits(Walk(file), name);
    MarkedAreUsages(file, name);
    var l := Lits(file)[k];
    PickMember(Lits(file), Marks(file, name), l);
    assert l in multiset(UsageLits(Walk(file), name));
    i :| 0 <= i < |UsageLits(Walk(file), name)| && UsageLits(Walk(file), name)[i] == l;
  }

  /** A site is the start of a literal of the file that spells the name. */
  lemma SiteIsLit(text: ByteString, file: Node, name: ByteString, s: nat) returns (k: nat)
    requires Faithful(text, file, name) && name != [] && s in UsageSites(file, name)
    ensures k < |Lits(file)| && Marks(file, name)[k]
    ensures var l := Lits(file)[k];
      && l.pos.offset == s && s + |name| <= |text| && text[s..s + |name|] == name
      && SpanEnd(text, s + |name|, l.end.offset)
  {
    var i :| 0 <= i < |Usages(file, name)| && Usages(file, name)[i].pos.offset == s;
    k := UsageIsLit(file, name, i);
    UsageSpelled(text, file, name, i);
  }

  lemma SitesApart(text: ByteString, file: Node, name: ByteString, s: nat, t: nat)
    requires Faithful(text, file, name) && name != []
    requires s in UsageSites(file, name) && t in UsageSites(file, name) && s < t
    ensures s + |name| <= t
  {
    var k := SiteIsLit(text, file, name, s);
    var m := SiteIsLit(text, file, name, t);
    LitsOfFileApart(text, Lits(file), k, m);
  }

  /** The usages of a name are occurrences of it in the text, and they do not overlap. */
  lemma UsagesAreSites(text: ByteString, file: Node, name: ByteString)
    requires Faithful(text, file, name) && name != []
    ensures Sites(text, UsageSites(file, name), name)
  {
    var sites := UsageSites(file, name);
    forall s | s in sites ensures s + |name| <= |text| && text[s..s + |name|] == name {
      var _ := SiteIsLit(text, file, name, s);
    }
    forall s, t | s in sites && t in sites && s < t ensures s + |name| <= t {
      SitesApart(text, file, name, s, t);
    }
  }

  lemma LitsOfFileApart(text: ByteString, lits: seq<Lit>, k: nat, m: nat)
    requires AllPlaced(text, lits) && k < |lits| && m < |lits| && k != m
    ensures LitsApart(lits[k], lits[m]) && LitPlaced(text, lits[k]) && LitPlaced(text, lits[m])
  {
    if k < m { assert LitsApart(lits[k], lits[m]); } else { assert LitsApart(lits[m], lits[k]); }
  }

  lemma TwiceInMultiset<T>(s: seq<T>, i: nat, j: nat)
    requires i < j < |s| && s[i] == s[j]
    ensures multiset(s)[s[i]] >= 2
  {
    assert s == s[..j] + s[j..];
    assert s[..j][i] == s[i] && s[j..][0] == s[i];
  }

  lemma UsageSpelled(text: ByteString, file: Node, name: ByteString, i: nat)
    requires Spelled(text, file, name) && name != [] && i < |Usages(file, name)|
    ensures SpelledAt(text, Usages(file, name)[i]) && Usages(file, name)[i].name == name
    ensures Usages(file, name)[i].end.offset >= Usages(file, name)[i].pos.offset + |name|
  {
    UsagesAreLits(Walk(file), name);
  }

  /** No two usages share a span. */
  lemma UsagesDistinct(text: ByteString, file: Node, name: ByteString, i: nat, j: nat)
    requires Faithful(text, file, name) && name != [] && i < j < |Usages(file, name)|
    ensures var u, v := Usages(file, name)[i], Usages(file, name)[j];
      u.end.offset <= v.pos.offset || v.end.offset <= u.pos.offset
  {
    var k := UsageIsLit(file, name, i);
    var m := UsageIsLit(file, name, j);
    var lits := Lits(file);
    UsageSpelled(text, file, name, i);
    if k == m {
      TwiceInMultiset(UsageLits(Walk(file), name), i, j);
      MarkedAreUsages(file, name);
      forall a, b | 0 <= a < b < |lits| && lits[a] == lits[k] ensures lits[b] != lits[k] {
        if lits[b] == lits[k] { SameStart(text, lits, a, b); }
      }
      PickOnce(lits, Marks(file, name), lits[k]);
    } else {
      LitsOfFileApart(text, lits, k, m);
    }
  }

  // ----- the renamed file is a faithful reading of the edited text

  /** Where the bytes of a literal begin that a rename keeps: after the name, or at its start. */
  function Rest(file: Node, name: ByteString, k: nat): nat
    requires k < |Lits(file)|
  {
    Lits(file)[k].pos.offset + if Marks(file, name)[k] then |name| else 0
  }

  /** Both ends of every literal are kept by the edit, and no site lies in what the edit keeps of it. */
  lemma {:induction false} LitKept(text: ByteString, file: Node, name: ByteString, k: nat)
    requires Faithful(text, file, name) && name != [] && k < |Lits(file)|
    ensures var l, sites, rest := Lits(file)[k], UsageSites(file, name), Rest(file, name, k);
      && LitPlaced(text, l) && l.pos.offset <= rest <= l.end.offset
      && Kept(sites, |name|, l.pos.offset) && Kept(sites, |name|, rest) && Kept(sites, |name|, l.end.offset)
      && (forall s :: rest <= s < l.end.offset ==> s !in sites)
      && (Marks(file, name)[k] ==> l.pos.offset in sites && SpanEnd(text, rest, l.end.offset))
  {
    var l, sites, rest := Lits(file)[k], UsageSites(file, name), Rest(file, name, k);
    if Marks(file, name)[k] { MarkedLit(text, file, name, k); }
    assert LitPlaced(text, l);
    forall s | s in sites
      ensures l.pos.offset <= s || s + |name| <= l.pos.offset
      ensures rest <= s || s + |name| <= rest
      ensures l.end.offset <= s || s + |name| <= l.end.offset
      ensures !(rest <= s < l.end.offset)
    {
      var m := SiteIsLit(text, file, name, s);
      if m != k { LitsOfFileApart(text, Lits(file), m, k); }
    }
  }

  lemma {:induction false} EndsKept(text: ByteString, file: Node, name: ByteString, k: nat)
    requires Faithful(text, file, name) && name != [] && k < |Lits(file)|
    ensures var l, sites := Lits(file)[k], UsageSites(file, name);
      LitPlaced(text, l) && Kept(sites, |name|, l.pos.offset) && Kept(sites, |name|, l.end.offset)
  {
    LitKept(text, file, name, k);
  }

  lemma {:induction false} MarkedLit(text: ByteString, file: Node, name: ByteString, k: nat)
    requires Faithful(text, file, name) && name != [] && k < |Lits(file)| && Marks(file, name)[k]
    ensures Lits(file)[k].pos.offset in UsageSites(file, name)
    ensures SpanEnd(text, Lits(file)[k].pos.offset + |name|, Lits(file)[k].end.offset)
  {
    var i := LitIsUsage(file, name, k);
    UsageSpelled(text, file, name, i);
    assert Usages(file, name)[i].pos.offset in UsageSites(file, name);
  }

  function RelocateLits(lits: seq<Lit>, move: Pos -> Pos): (r: seq<Lit>)
    ensures |r| == |lits|
  {
    seq(|lits|, i requires 0 <= i < |lits| => RelocateLit(lits[i], move))
  }

  lemma RelocateLitsAppend(a: seq<Lit>, b: seq<Lit>, move: Pos -> Pos)
    ensures RelocateLits(a + b, move) == RelocateLits(a, move) + RelocateLits(b, move)
  {
  }

  lemma {:induction false} LitsRelocated(n: Node, move: Pos -> Pos)
    ensures Lits(Relocate(n, move)) == RelocateLits(Lits(n), move)
    decreases n, 1
  {
    if n.Node? {
      LitsRelocatedAll(n.children, move);
      RelocateLitsAppend(OwnLit(n), LitsAll(n.children), move);
    } else {
      LitsRelocatedAll(n.assigns, move);
      LitsRelocatedAll(n.args, move);
      RelocateLitsAppend(LitsAll(n.assigns), LitsAll(n.args), move);
    }
  }

  lemma {:induction false} LitsRelocatedAll(ns: seq<Node>, move: Pos -> Pos)
    ensures LitsAll(RelocateAll(ns, move)) == RelocateLits(LitsAll(ns), move)
    decreases ns, 0
  {
    if ns != [] {
      LitsRelocated(ns[0], move);
      LitsRelocatedAll(ns[1..], move);
      RelocateLitsAppend(Lits(ns[0]), LitsAll(ns[1..]), move);
    }
  }

  /** A literal of the renamed file. */
  function RenamedLit(text: ByteString, file: Node, name: ByteString, newName: ByteString, k: nat): Lit
    requires name != [] && k < |Lits(file)|
  {
    var l := Lits(file)[k];
    RelocateLit(if Marks(file, name)[k] then l.(value := newName) else l, Mover(text, file, name, newName))
  }

  lemma {:induction false} LitsOfRenamed(text: ByteString, file: Node, name: ByteString, newName: ByteString)
    requires name != []
    ensures var lits := Lits(RenamedFile(text, file, name, newName));
      |lits| == |Lits(file)| && forall k :: 0 <= k < |lits| ==> lits[k] == RenamedLit(text, file, name, newName, k)
  {
    LitsRenamed(file, name, newName);
    LitsRelocated(RenameNode(file, name, newName), Mover(text, file, name, newName));
  }

  /** A stretch without sites is kept; it is never the span of a site. */
  lemma RestKept(text: ByteString, sites: set<nat>, name: ByteString, newName: ByteString, a: nat, b: nat)
    requires Sites(text, sites, name) && a <= b <= |text| && Kept(sites, |name|, a) && Kept(sites, |name|, b)
    requires forall s :: a <= s < b ==> s !in sites
    ensures var r := Replaced(text, sites, name, newName);
      var sa, sb := Shift(text, sites, name, newName, a), Shift(text, sites, name, newName, b);
      sa <= sb <= |r| && r[sa..sb] == text[a..b]
  {
    StretchImage(text, sites, name, newName, a, b);
    assert !(a in sites && b == a + |name|);
  }

  /** Both ends of a literal move with the text. */
  lemma {:induction false} RenamedLitEnds(text: ByteString, file: Node, name: ByteString, newName: ByteString, k: nat)
    requires Faithful(text, file, name) && name != [] && newName != [] && k < |Lits(file)|
    ensures LitPlaced(text, Lits(file)[k])
    ensures var l, m, sites := Lits(file)[k], RenamedLit(text, file, name, newName, k), UsageSites(file, name);
      var r := RenamedText(text, file, name, newName);
      && m.pos.offset == Shift(text, sites, name, newName, l.pos.offset) <= |r| && m.pos == PosAt(r, m.pos.offset)
      && m.end.offset == Shift(text, sites, name, newName, l.end.offset) <= |r| && m.end == PosAt(r, m.end.offset)
  {
    var l, sites := Lits(file)[k], UsageSites(file, name);
    UsagesAreSites(text, file, name);
    EndsKept(text, file, name, k);
    ReplacedBetween(text, sites, name, newName, l.pos.offset, |text|);
    ReplacedBetween(text, sites, name, newName, l.end.offset, |text|);
  }

  /** What an edit keeps of a literal: the new text has the new name before it, if there was the old one. */
  lemma {:induction false} RestMoved(text: ByteString, file: Node, name: ByteString, newName: ByteString, k: nat)
    requires Faithful(text, file, name) && name != [] && newName != [] && k < |Lits(file)|
    ensures var l, sites, rest := Lits(file)[k], UsageSites(file, name), Rest(file, name, k);
      && l.pos.offset <= rest <= l.end.offset <= |text|
      && var r := Replaced(text, sites, name, newName);
         var a, b := Shift(text, sites, name, newName, l.pos.offset), Shift(text, sites, name, newName, l.end.offset);
         && a <= Shift(text, sites, name, newName, rest) <= b <= |r|
         && r[a..Shift(text, sites, name, newName, rest)] == (if Marks(file, name)[k] then newName else [])
         && r[Shift(text, sites, name, newName, rest)..b] == text[rest..l.end.offset]
  {
    var l, sites, rest := Lits(file)[k], UsageSites(file, name), Rest(file, name, k);
    UsagesAreSites(text, file, name);
    LitKept(text, file, name, k);
    StretchImage(text, sites, name, newName, l.pos.offset, rest);
    RestKept(text, sites, name, newName, rest, l.end.offset);
  }

  /** The bytes of the new text that a literal of the renamed file covers. */
  lemma {:induction false} RenamedLitReads(text: ByteString, file: Node, name: ByteString, newName: ByteString, k: nat)
    requires Faithful(text, file, name) && name != [] && newName != [] && k < |Lits(file)|
    ensures RenamedReading(text, file, name, newName, k)
  {
    var m, r := RenamedLit(text, file, name, newName, k), RenamedText(text, file, name, newName);
    RenamedLitEnds(text, file, name, newName, k);
    RestMoved(text, file, name, newName, k);
    Joined(r, m.pos.offset, Shift(text, UsageSites(file, name), name, newName, Rest(file, name, k)), m.end.offset);
  }

  lemma Joined(r: ByteString, a: nat, b: nat, c: nat)
    requires a <= b <= c <= |r|
    ensures r[a..c] == r[a..b] + r[b..c]
  {
  }

  /**
   A literal of the renamed file lies inside the edited text at proper positions, and covers the new name
   if it was renamed, and else nothing new; and then the bytes that it covered before, without the name.
   */
  ghost predicate RenamedReading(text: ByteString, file: Node, name: ByteString, newName: ByteString, k: nat)
    requires name != [] && k < |Lits(file)| && Placed(text, file)
  {
    var r, l, m := RenamedText(text, file, name, newName), Lits(file)[k], RenamedLit(text, file, name, newName, k);
    assert LitPlaced(text, l);
    && LitPlaced(r, m) && m.pos == PosAt(r, m.pos.offset) && m.end == PosAt(r, m.end.offset)
    && Rest(file, name, k) <= l.end.offset
    && r[m.pos.offset..m.end.offset]
       == (if Marks(file, name)[k] then newName else []) + text[Rest(file, name, k)..l.end.offset]
  }

  /**
   The edited text is the text of the tree in which every usage of the name is renamed: each literal of
   the renamed tree, moved to its new position, covers the new name in place of the old one and else the
   bytes it covered before, and no two overlap.
   */
  lemma {:induction false} RenamedFileReads(text: ByteString, file: Node, name: ByteString, newName: ByteString)
    requires Faithful(text, file, name) && name != [] && newName != []
    ensures Placed(RenamedText(text, file, name, newName), RenamedFile(text, file, name, newName))
    ensures forall k :: 0 <= k < |Lits(file)| ==> RenamedReading(text, file, name, newName, k)
  {
    LitsOfRenamed(text, file, name, newName);
    var lits := Lits(file);
    forall k | 0 <= k < |lits|
      ensures RenamedReading(text, file, name, newName, k)
      ensures LitPlaced(RenamedText(text, file, name, newName), RenamedLit(text, file, name, newName, k))
    {
      RenamedLitReads(text, file, name, newName, k);
    }
    forall i, j | 0 <= i < j < |lits|
      ensures LitsApart(RenamedLit(text, file, name, newName, i), RenamedLit(text, file, name, newName, j))
    {
      RenamedLitsApart(text, file, name, newName, i, j);
    }
  }

  lemma {:induction false} RenamedLitsApart(text: ByteString, file: Node, name: ByteString, newName: ByteString,
                                            i: nat, j: nat)
    requires Faithful(text, file, name) && name != [] && newName != [] && i < j < |Lits(file)|
    ensures LitsApart(RenamedLit(text, file, name, newName, i), RenamedLit(text, file, name, newName, j))
  {
    assert LitsApart(Lits(file)[i], Lits(file)[j]);
    if Lits(file)[i].end.offset <= Lits(file)[j].pos.offset {
      RenamedLitBefore(text, file, name, newName, i, j);
    } else {
      RenamedLitBefore(text, file, name, newName, j, i);
    }
  }

  lemma {:induction false} RenamedLitBefore(text: ByteString, file: Node, name: ByteString, newName: ByteString,
                                            i: nat, j: nat)
    requires Faithful(text, file, name) && name != [] && newName != [] && i < |Lits(file)| && j < |Lits(file)|
    requires Lits(file)[i].end.offset <= Lits(file)[j].pos.offset
    ensures RenamedLit(text, file, name, newName, i).end.offset <= RenamedLit(text, file, name, newName, j).pos.offset
  {
    var a, b := Lits(file)[i].end.offset, Lits(file)[j].pos.offset;
    EndsKept(text, file, name, i);
    EndsKept(text, file, name, j);
    RenamedLitEnds(text, file, name, newName, i);
    RenamedLitEnds(text, file, name, newName, j);
    if a < b { ShiftMonotone(text, UsageSites(file, name), name, newName, a, b); }
  }

  // ----- the edits a client receives

  /** The edits `rename` sends for one file. */
  function RenameEdits(text: ByteString, enc: Encoding, usages: seq<Usage>, newName: ByteString): (r: seq<TextEdit>)
    ensures |r| == |usages|
  {
    seq(|usages|, i requires 0 <= i < |usages| =>
      TextEdit(RangeToLsp(text, enc, usages[i].pos, usages[i].end), newName))
  }

  /** The bytes `rename` means to replace: those of the name, whatever follows it in the span. */
  function UsageEdits(usages: seq<Usage>, newName: ByteString): (r: seq<ByteEdit>)
    ensures |r| == |usages|
  {
    seq(|usages|, i requires 0 <= i < |usages| =>
      ByteEdit(usages[i].pos.offset, usages[i].pos.offset + |usages[i].name|, newName))
  }

  /** Under UTF-16 a client can only name offsets of a text that is valid UTF-8. */
  ghost predicate Representable(text: ByteString, enc: Encoding) {
    enc == UTF8 || Valid(text)
  }

  /** The client can be told where every usage of the name begins and ends. */
  ghost predicate UsagesReadable(text: ByteString, file: Node, name: ByteString) {
    forall i :: 0 <= i < |Usages(file, name)| ==> UsageReadable(text, Usages(file, name)[i])
  }

  ghost predicate UsageReadable(text: ByteString, u: Usage) {
    && u.pos.offset <= |text| && Readable(text, u.pos.offset)
    && u.pos.offset + |u.name| <= |text| && Readable(text, u.pos.offset + |u.name|)
  }

  /** The positions of a usage are those of its two offsets, which can be named, and so can the end of the name. */
  lemma UsageInText(text: ByteString, enc: Encoding, file: Node, name: ByteString, i: nat)
    requires Faithful(text, file, name) && Representable(text, enc) && name != [] && Ascii(name)
    requires i < |Usages(file, name)|
    ensures var u := Usages(file, name)[i];
      && SpelledAt(text, u) && u.name == name
      && Addressable(text, enc, u.pos.offset) && Addressable(text, enc, u.pos.offset + |name|)
      && Addressable(text, enc, u.end.offset)
  {
    UsageSpelled(text, file, name, i);
    SpelledInText(text, enc, Usages(file, name)[i]);
  }

  lemma SpelledInText(text: ByteString, enc: Encoding, u: Usage)
    requires SpelledAt(text, u) && Representable(text, enc) && u.name != [] && Ascii(u.name)
    ensures Addressable(text, enc, u.pos.offset) && Addressable(text, enc, u.pos.offset + |u.name|)
    ensures Addressable(text, enc, u.end.offset)
  {
    var e := u.pos.offset + |u.name|;
    if enc != UTF8 {
      AsciiBoundaries(text, u.name, u.pos.offset);
      if u.end.offset != e { AsciiBoundaries(text, [RETURN], e); }
    }
  }

  /** An edit that was sent is decoded to `e`. */
  ghost predicate DecodedEdit(text: ByteString, enc: Encoding, sent: TextEdit, e: ByteEdit) {
    && Denotes(text, enc, sent.range.start, e.start)
    && Denotes(text, enc, sent.range.end, e.end)
    && e.newText == sent.newText
  }

  /** `edits` are the byte ranges that the LSP edits denote in the text. */
  ghost predicate Decoded(text: ByteString, enc: Encoding, sent: seq<TextEdit>, edits: seq<ByteEdit>) {
    && |edits| == |sent|
    && forall i :: 0 <= i < |sent| ==> DecodedEdit(text, enc, sent[i], edits[i])
  }

  /** The client decodes the edit of a usage as the bytes of the name exactly when these are readable. */
  lemma EditDecodedAsMeant(text: ByteString, enc: Encoding, file: Node, name: ByteString, newName: ByteString, i: nat)
    requires Faithful(text, file, name) && Representable(text, enc) && name != [] && Ascii(name)
    requires i < |Usages(file, name)|
    ensures var us := Usages(file, name);
      DecodedEdit(text, enc, RenameEdits(text, enc, us, newName)[i], UsageEdits(us, newName)[i]) <==>
        UsageReadable(text, us[i])
  {
    var us := Usages(file, name);
    UsageSpelled(text, file, name, i);
    UseDecodedIff(text, enc, us[i], RenameEdits(text, enc, us, newName)[i], UsageEdits(us, newName)[i]);
  }

  lemma UseDecodedIff(text: ByteString, enc: Encoding, u: Usage, sent: TextEdit, e: ByteEdit)
    requires SpelledAt(text, u) && Representable(text, enc) && u.name != [] && Ascii(u.name)
    requires e == ByteEdit(u.pos.offset, u.pos.offset + |u.name|, sent.newText)
    requires sent.range == RangeToLsp(text, enc, u.pos, u.end)
    ensures DecodedEdit(text, enc, sent, e) <==> UsageReadable(text, u)
  {
    SpelledInText(text, enc, u);
    SpanDecodedIff(text, enc, u, sent, e);
  }

  /** The edit of a span is decoded as the bytes of the name exactly when both ends of the name are readable. */
  lemma SpanDecodedIff(text: ByteString, enc: Encoding, u: Usage, sent: TextEdit, e: ByteEdit)
    requires e == ByteEdit(u.pos.offset, u.pos.offset + |u.name|, sent.newText)
    requires Addressable(text, enc, u.pos.offset) && Addressable(text, enc, e.end)
    requires Addressable(text, enc, u.end.offset) && SpanEnd(text, e.end, u.end.offset)
    requires u.pos == PosAt(text, u.pos.offset) && u.end == PosAt(text, u.end.offset)
    requires sent.range == RangeToLsp(text, enc, u.pos, u.end)
    ensures DecodedEdit(text, enc, sent, e) <==> UsageReadable(text, u)
  {
    ConvertersAgree(text, enc, u.pos.offset);
    ConvertersAgree(text, enc, u.end.offset);
    ServerPositionReadIff(text, enc, u.pos.offset);
    SpanEndReadIff(text, enc, e.end, u.end.offset);
  }

  /** The client reads the end of a span as the end of the name, also if the span goes over a carriage return. */
  lemma SpanEndReadIff(text: ByteString, enc: Encoding, e: nat, b: nat)
    requires SpanEnd(text, e, b) && Addressable(text, enc, e) && Addressable(text, enc, b)
    ensures Denotes(text, enc, PositionAt(text, enc, b), e) <==> Readable(text, e)
  {
    if b == e {
      ServerPositionReadIff(text, enc, e);
    } else {
      LineEndClamped(text, enc, e);
    }
  }

  /** Edits are decoded in one way at most. */
  lemma DecodedUnique(text: ByteString, enc: Encoding, sent: seq<TextEdit>, a: seq<ByteEdit>, b: seq<ByteEdit>)
    requires Decoded(text, enc, sent, a) && Decoded(text, enc, sent, b)
    ensures a == b
  {
    forall i | 0 <= i < |sent| ensures a[i] == b[i] {
      assert DecodedEdit(text, enc, sent[i], a[i]) && DecodedEdit(text, enc, sent[i], b[i]);
      DenotesUnique(text, enc, sent[i].range.start, a[i].start, b[i].start);
      DenotesUnique(text, enc, sent[i].range.end, a[i].end, b[i].end);
    }
  }

  /** What the client decodes is what the server meant, exactly when every usage is readable. */
  lemma DecodedAsMeantIff(text: ByteString, enc: Encoding, file: Node, name: ByteString, newName: ByteString)
    requires Faithful(text, file, name) && Representable(text, enc) && name != [] && Ascii(name)
    ensures Decoded(text, enc, RenameEdits(text, enc, Usages(file, name), newName),
                    UsageEdits(Usages(file, name), newName))
       <==> UsagesReadable(text, file, name)
  {
    var us := Usages(file, name);
    var sent, meant := RenameEdits(text, enc, us, newName), UsageEdits(us, newName);
    forall i | 0 <= i < |us| ensures DecodedEdit(text, enc, sent[i], meant[i]) <==> UsageReadable(text, us[i]) {
      EditDecodedAsMeant(text, enc, file, name, newName, i);
    }
  }

  /**
   Rename of one file, end to end.  If the client can be told where the usages are, it decodes the edits
   in exactly one way; the decoded edits each cover the old name and are pairwise disjoint; and applying
   them all at once gives the text of the renamed tree.
   */
  lemma {:induction false} RenameIsCorrect(text: ByteString, enc: Encoding, file: Node, name: ByteString,
                                           newName: ByteString, edits: seq<ByteEdit>)
    requires Faithful(text, file, name) && Representable(text, enc) && name != [] && Ascii(name)
    requires UsagesReadable(text, file, name)
    requires Decoded(text, enc, RenameEdits(text, enc, Usages(file, name), newName), edits)
    ensures edits == UsageEdits(Usages(file, name), newName)
    ensures InBounds(text, edits)
    ensures forall i :: 0 <= i < |edits| ==> text[edits[i].start..edits[i].end] == name
    ensures forall i, j :: 0 <= i < j < |edits| ==> edits[i].end <= edits[j].start || edits[j].end <= edits[i].start
    ensures Apply(text, edits, 0) == RenamedText(text, file, name, newName)
  {
    var us := Usages(file, name);
    DecodedAsMeantIff(text, enc, file, name, newName);
    DecodedUnique(text, enc, RenameEdits(text, enc, us, newName), edits, UsageEdits(us, newName));
    forall i | 0 <= i < |edits|
      ensures edits[i].start < edits[i].end <= |text| && text[edits[i].start..edits[i].end] == name
      ensures edits[i] == ByteEdit(edits[i].start, edits[i].start + |name|, newName)
    {
      UsageInText(text, enc, file, name, i);
    }
    forall i, j | 0 <= i < j < |edits| ensures edits[i].end <= edits[j].start || edits[j].end <= edits[i].start {
      UsagesDistinct(text, file, name, i, j);
      UsageInText(text, enc, file, name, i);
      UsageInText(text, enc, file, name, j);
    }
    UsagesAreSites(text, file, name);
    EditsMeetSites(file, name, newName, edits);
    ApplyIsReplace(text, edits, UsageSites(file, name), |name|, newName, 0);
  }

  lemma EditsMeetSites(file: Node, name: ByteString, newName: ByteString, edits: seq<ByteEdit>)
    requires edits == UsageEdits(Usages(file, name), newName)
    requires forall i :: 0 <= i < |edits| ==> edits[i] == ByteEdit(edits[i].start, edits[i].start + |name|, newName)
    ensures EditsAtSites(edits, UsageSites(file, name), |name|, newName)
  {
    var us := Usages(file, name);
    forall s ensures s in UsageSites(file, name) <==> exists k :: 0 <= k < |edits| && edits[k].start == s {
      if s in UsageSites(file, name) {
        var i :| 0 <= i < |us| && us[i].pos.offset == s;
        assert edits[i].start == s;
      }
      if k :| 0 <= k < |edits| && edits[k].start == s {
        assert us[k].pos.offset == s;
      }
    }
  }

  /** A command of one word that is one literal. */
  function LoneCommand(lit: Lit): Node {
    CallExpr([], [Node(Word, None, [Node(Literal, Some(lit), [])])])
  }

  lemma LoneCommandUsages(lit: Lit)
    requires lit.value != []
    ensures Lits(LoneCommand(lit)) == [lit]
    ensures Usages(LoneCommand(lit), lit.value) == [Usage(lit.value, Read, lit.pos, lit.end)]
  {
    var leaf, file := Node(Literal, Some(lit), []), LoneCommand(lit);
    var word := file.args[0];
    LitsOfOne(leaf);
    LitsOfOne(word);
    assert [leaf][1..] == [] && [word][1..] == [];
    assert WalkAll([leaf]) == [leaf] && WalkAll([word]) == [word, leaf];
    var ns := Walk(file);
    assert ns == [file, word, leaf] && ns[..2] == [file, word] && ns[..2][..1] == [file] && [file][..0] == [];
    assert UsagesIn(ns[..2], lit.value) == UsagesIn([file], lit.value);
  }

  /**
   The command "x" on a line that ends with carriage return and newline.  The program's parser ends the
   literal after the carriage return, and so does the range that the server sends; the client, to which
   the line ends before it, replaces the name alone.
   */
  lemma ReturnKept(enc: Encoding, newName: ByteString)
    requires enc != UTF32
    ensures var text: ByteString := [120, 13, 10];
      var file := LoneCommand(Lit([120], PosAt(text, 0), PosAt(text, 2)));
      var sent, edits := RenameEdits(text, enc, Usages(file, [120]), newName), [ByteEdit(0, 1, newName)];
      && Faithful(text, file, [120]) && |sent| == 1 && sent[0].range == Range(Position(0, 0), Position(0, 2))
      && Decoded(text, enc, sent, edits) && InBounds(text, edits)
      && Apply(text, edits, 0) == newName + [13, 10]
  {
    var text: ByteString := [120, 13, 10];
    var lit := Lit([120], PosAt(text, 0), PosAt(text, 2));
    LoneCommandUsages(lit);
    LoneCommandFaithful(text, lit);
    OneEditOverReturn(text, enc, Usages(LoneCommand(lit), [120]), newName);
    EditBeforeReturn(text, [ByteEdit(0, 1, newName)], newName);
  }

  lemma LoneCommandFaithful(text: ByteString, lit: Lit)
    requires lit.value != [] && SpelledAt(text, Usage(lit.value, Read, lit.pos, lit.end))
    ensures Faithful(text, LoneCommand(lit), lit.value)
  {
    LoneCommandUsages(lit);
  }

  lemma OneEditOverReturn(text: ByteString, enc: Encoding, us: seq<Usage>, newName: ByteString)
    requires text == [120, RETURN, NEWLINE] && enc != UTF32 && |us| == 1 && |us[0].name| == 1
    requires us[0].pos == PosAt(text, 0) && us[0].end == PosAt(text, 2)
    ensures var sent := RenameEdits(text, enc, us, newName);
      sent[0].range == Range(Position(0, 0), Position(0, 2)) && Decoded(text, enc, sent, [ByteEdit(0, 1, newName)])
  {
    RangeOverReturn(text, enc, us[0], newName);
  }

  lemma RangeOverReturn(text: ByteString, enc: Encoding, u: Usage, newName: ByteString)
    requires text == [120, RETURN, NEWLINE] && enc != UTF32
    requires |u.name| == 1 && u.pos == PosAt(text, 0) && u.end == PosAt(text, 2)
    ensures var sent := TextEdit(RangeToLsp(text, enc, u.pos, u.end), newName);
      && sent.range == Range(Position(0, 0), Position(0, 2))
      && DecodedEdit(text, enc, sent, ByteEdit(0, 1, newName))
  {
    assert WellFormedAt(text, 0) && WellFormedAt(text, 1) && WellFormedAt(text, 2) && Valid(text);
    assert LineNo(text, 0) == LineNo(text, 1) == LineNo(text, 2) == 0;
    assert LineBegin(text, 2) == LineBegin(text, 1) == LineBegin(text, 0) == 0;
    assert Units16(text, 2, 2) == 0 && Units16(text, 1, 2) == 1;
    ConvertersAgree(text, enc, 0);
    ConvertersAgree(text, enc, 2);
    SpanDecodedIff(text, enc, u, TextEdit(RangeToLsp(text, enc, u.pos, u.end), newName), ByteEdit(0, 1, newName));
  }

  lemma {:induction false} EditBeforeReturn(text: ByteString, edits: seq<ByteEdit>, newName: ByteString)
    requires text == [120, RETURN, NEWLINE] && edits == [ByteEdit(0, 1, newName)]
    ensures Apply(text, edits, 0) == newName + [RETURN, NEWLINE]
  {
    assert edits[1..] == [];
    EditAtMember(edits, 1);
    EditAtMember(edits, 2);
    assert Apply(text, edits, 3) == [];
    assert Apply(text, edits, 2) == [text[2]];
    assert Apply(text, edits, 1) == [text[1], text[2]];
  }
}
