/** The index and its queries: the model of the rest of internal/analyser/index.go. */
module Index {
  import opened Bytes
  import opened Syntax
  import opened Selection
  import opened Analyser
  import opened SourceGraph

  datatype UsageHit = UsageHit(uri: Uri, usage: Usage)

  datatype DeclarationHit = DeclarationHit(uri: Uri, declaration: Declaration)

  /** Storing a missing tree drops the entry. */
  function Put(entries: Entries, u: Uri, file: Option<Node>): Entries {
    if file.None? then entries - {u} else entries[u := file.value]
  }

  function Lookup<T>(m: map<Uri, T>, u: Uri): Option<T> {
    if u in m then Some(m[u]) else None
  }

  class Index {
    var entries: Entries

    constructor ()
      ensures entries == map[]
    {
      entries := map[];
    }

    method AddOrReplace(u: Uri, file: Option<Node>)
      modifies this
      ensures entries == Put(old(entries), u, file)
    {
      if file.None? {
        entries := entries - {u};
        return;
      }
      entries := entries[u := file.value];
    }

    method Remove(u: Uri)
      modifies this
      ensures entries == Put(old(entries), u, None)
    {
      entries := entries - {u};
    }

    method Get(u: Uri) returns (file: Option<Node>)
      ensures file == Lookup(entries, u)
    {
      file := if u in entries then Some(entries[u]) else None;
    }

    /** `ReachableUsages`. */
    method ReachableUsages(resolve: Resolver, from: Uri, name: ByteString, includeDecl: bool)
      returns (hits: seq<UsageHit>)
      ensures AreUsageHits(entries, Component(entries, resolve, from), name, includeDecl, hits)
    {
      var allowed := ReachableUris(entries, resolve, from);
      hits := UsageHits(entries, allowed, name, includeDecl);
    }

    /** `ReachableDeclarations`. */
    method ReachableDeclarations(resolve: Resolver, from: Uri) returns (hits: seq<DeclarationHit>)
      ensures AreDeclarationHits(entries, Component(entries, resolve, from), hits)
    {
      var allowed := ReachableUris(entries, resolve, from);
      hits := DeclarationHits(entries, allowed);
    }
  }

  // ----- usages over files

  function Reads(usages: seq<Usage>): seq<Usage> {
    if usages == [] then []
    else Reads(usages[..|usages| - 1]) + if usages[|usages| - 1].kind == Write then [] else [usages[|usages| - 1]]
  }

  function Wanted(usages: seq<Usage>, includeDecl: bool): seq<Usage> {
    if includeDecl then usages else Reads(usages)
  }

  function Tagged(u: Uri, usages: seq<Usage>): (r: seq<UsageHit>)
    ensures |r| == |usages|
  {
    seq(|usages|, i requires 0 <= i < |usages| => UsageHit(u, usages[i]))
  }

  /** The hits of one file, in their order. */
  function HitsOf(hits: seq<UsageHit>, u: Uri): seq<Usage> {
    if hits == [] then []
    else HitsOf(hits[..|hits| - 1], u) + if hits[|hits| - 1].uri == u then [hits[|hits| - 1].usage] else []
  }

  lemma {:induction false} HitsAppend(a: seq<UsageHit>, b: seq<UsageHit>, u: Uri)
    ensures HitsOf(a + b, u) == HitsOf(a, u) + HitsOf(b, u)
  {
    if b == [] {
      assert a + b == a;
    } else {
      assert (a + b)[..|a + b| - 1] == a + b[..|b| - 1];
      HitsAppend(a, b[..|b| - 1], u);
    }
  }

  lemma {:induction false} HitsOfTagged(u: Uri, usages: seq<Usage>, v: Uri)
    ensures HitsOf(Tagged(u, usages), v) == if u == v then usages else []
  {
    if usages != [] {
      var front := usages[..|usages| - 1];
      assert Tagged(u, usages)[..|usages| - 1] == Tagged(u, front);
      HitsOfTagged(u, front, v);
    }
  }

  /** The usages that a query over the given files reports for `u`. */
  function UsagesOf(entries: Entries, allowed: set<Uri>, name: ByteString, includeDecl: bool, u: Uri): seq<Usage> {
    if u in entries && u in allowed then Wanted(Usages(entries[u], name), includeDecl) else []
  }

  /** Each file's usages are reported once and in order; the files may be interleaved in any way. */
  ghost predicate AreUsageHits(entries: Entries, allowed: set<Uri>, name: ByteString, includeDecl: bool,
                               hits: seq<UsageHit>)
  {
    forall u :: HitsOf(hits, u) == UsagesOf(entries, allowed, name, includeDecl, u)
  }

  /** The inner loop of `usageHits`: the usages of one file are appended. */
  method AppendUsages(u: Uri, file: Node, name: ByteString, includeDecl: bool, before: seq<UsageHit>)
    returns (hits: seq<UsageHit>)
    ensures hits == before + Tagged(u, Wanted(Usages(file, name), includeDecl))
  {
    hits := before;
    var usages := FindUsages(Some(file), name);
    for i := 0 to |usages|
      invariant hits == before + Tagged(u, Wanted(usages[..i], includeDecl))
    {
      assert usages[..i + 1][..i] == usages[..i];
      if !includeDecl && usages[i].kind == Write {
        continue;
      }
      hits := hits + [UsageHit(u, usages[i])];
    }
    assert usages[..|usages|] == usages;
  }

  lemma {:induction false} OneMoreFile(before: seq<UsageHit>, u: Uri, usages: seq<Usage>, v: Uri)
    ensures HitsOf(before + Tagged(u, usages), v) == if u == v then HitsOf(before, v) + usages else HitsOf(before, v)
  {
    HitsAppend(before, Tagged(u, usages), v);
    HitsOfTagged(u, usages, v);
  }

  /** The files that are not pending have been reported. */
  ghost predicate UsagesReported(entries: Entries, allowed: set<Uri>, name: ByteString, includeDecl: bool,
                                 pending: set<Uri>, hits: seq<UsageHit>)
  {
    forall u :: HitsOf(hits, u) == if u in pending then [] else UsagesOf(entries, allowed, name, includeDecl, u)
  }

  lemma ReportFile(entries: Entries, allowed: set<Uri>, name: ByteString, includeDecl: bool, pending: set<Uri>,
                   hits: seq<UsageHit>, u: Uri)
    requires u in pending && u in entries && u in allowed
    requires UsagesReported(entries, allowed, name, includeDecl, pending, hits)
    ensures UsagesReported(entries, allowed, name, includeDecl, pending - {u},
                           hits + Tagged(u, Wanted(Usages(entries[u], name), includeDecl)))
  {
    var usages := Wanted(Usages(entries[u], name), includeDecl);
    forall v
      ensures HitsOf(hits + Tagged(u, usages), v)
           == if v in pending - {u} then [] else UsagesOf(entries, allowed, name, includeDecl, v)
    {
      OneMoreFile(hits, u, usages, v);
    }
  }

  /** `usageHits`; the map is visited in any order. */
  method UsageHits(entries: Entries, allowed: set<Uri>, name: ByteString, includeDecl: bool)
    returns (hits: seq<UsageHit>)
    ensures AreUsageHits(entries, allowed, name, includeDecl, hits)
  {
    hits := [];
    var pending := entries.Keys;
    while pending != {}
      invariant pending <= entries.Keys
      invariant UsagesReported(entries, allowed, name, includeDecl, pending, hits)
      decreases |pending|
    {
      var u :| u in pending;
      pending := pending - {u};
      if u !in allowed {
        continue;
      }
      ReportFile(entries, allowed, name, includeDecl, pending + {u}, hits, u);
      assert pending + {u} - {u} == pending;
      hits := AppendUsages(u, entries[u], name, includeDecl, hits);
    }
  }

  // ----- declarations over files

  function DeclarationsOf(hits: seq<DeclarationHit>, u: Uri): seq<Declaration> {
    if hits == [] then []
    else
      DeclarationsOf(hits[..|hits| - 1], u)
      + if hits[|hits| - 1].uri == u then [hits[|hits| - 1].declaration] else []
  }

  function TaggedDeclarations(u: Uri, decls: seq<Declaration>): (r: seq<DeclarationHit>)
    ensures |r| == |decls|
  {
    seq(|decls|, i requires 0 <= i < |decls| => DeclarationHit(u, decls[i]))
  }

  lemma {:induction false} DeclarationHitsAppend(a: seq<DeclarationHit>, b: seq<DeclarationHit>, u: Uri)
    ensures DeclarationsOf(a + b, u) == DeclarationsOf(a, u) + DeclarationsOf(b, u)
  {
    if b == [] {
      assert a + b == a;
    } else {
      assert (a + b)[..|a + b| - 1] == a + b[..|b| - 1];
      DeclarationHitsAppend(a, b[..|b| - 1], u);
    }
  }

  lemma {:induction false} DeclarationsOfTagged(u: Uri, decls: seq<Declaration>, v: Uri)
    ensures DeclarationsOf(TaggedDeclarations(u, decls), v) == if u == v then decls else []
  {
    if decls != [] {
      var front := decls[..|decls| - 1];
      assert TaggedDeclarations(u, decls)[..|decls| - 1] == TaggedDeclarations(u, front);
      DeclarationsOfTagged(u, front, v);
    }
  }

  ghost predicate AreDeclarationHits(entries: Entries, allowed: set<Uri>, hits: seq<DeclarationHit>) {
    forall u :: DeclarationsOf(hits, u) == DeclarationsReported(entries, allowed, u)
  }

  /** The inner loop of `declarationHits`. */
  method AppendDeclarations(u: Uri, file: Node, before: seq<DeclarationHit>) returns (hits: seq<DeclarationHit>)
    ensures hits == before + TaggedDeclarations(u, Declarations(file))
  {
    hits := before;
    var decls := FindDeclarations(Some(file));
    for i := 0 to |decls|
      invariant hits == before + TaggedDeclarations(u, decls[..i])
    {
      hits := hits + [DeclarationHit(u, decls[i])];
    }
    assert decls[..|decls|] == decls;
  }

  lemma {:induction false} OneMoreDeclaringFile(before: seq<DeclarationHit>, u: Uri, decls: seq<Declaration>, v: Uri)
    ensures DeclarationsOf(before + TaggedDeclarations(u, decls), v)
         == if u == v then DeclarationsOf(before, v) + decls else DeclarationsOf(before, v)
  {
    DeclarationHitsAppend(before, TaggedDeclarations(u, decls), v);
    DeclarationsOfTagged(u, decls, v);
  }

  function DeclarationsReported(entries: Entries, allowed: set<Uri>, u: Uri): seq<Declaration> {
    if u in entries && u in allowed then Declarations(entries[u]) else []
  }

  ghost predicate AllReported(entries: Entries, allowed: set<Uri>, pending: set<Uri>, hits: seq<DeclarationHit>) {
    forall u :: DeclarationsOf(hits, u) == if u in pending then [] else DeclarationsReported(entries, allowed, u)
  }

  lemma ReportDeclarations(entries: Entries, allowed: set<Uri>, pending: set<Uri>, hits: seq<DeclarationHit>, u: Uri)
    requires u in pending && u in entries && u in allowed && AllReported(entries, allowed, pending, hits)
    ensures AllReported(entries, allowed, pending - {u}, hits + TaggedDeclarations(u, Declarations(entries[u])))
  {
    var decls := Declarations(entries[u]);
    forall v
      ensures DeclarationsOf(hits + TaggedDeclarations(u, decls), v)
           == if v in pending - {u} then [] else DeclarationsReported(entries, allowed, v)
    {
      OneMoreDeclaringFile(hits, u, decls, v);
    }
  }

  /** `declarationHits`; the map is visited in any order. */
  method DeclarationHits(entries: Entries, allowed: set<Uri>) returns (hits: seq<DeclarationHit>)
    ensures AreDeclarationHits(entries, allowed, hits)
  {
    hits := [];
    var pending := entries.Keys;
    while pending != {}
      invariant pending <= entries.Keys
      invariant AllReported(entries, allowed, pending, hits)
      decreases |pending|
    {
      var u :| u in pending;
      pending := pending - {u};
      if u !in allowed {
        continue;
      }
      ReportDeclarations(entries, allowed, pending + {u}, hits, u);
      assert pending + {u} - {u} == pending;
      hits := AppendDeclarations(u, entries[u], hits);
    }
  }

  // ----- hits, seen one at a time

  /** A hit is an item of its file's list, and every item is a hit. */
  lemma {:induction false} HitMember(hits: seq<UsageHit>, u: Uri, usage: Usage)
    ensures usage in HitsOf(hits, u) <==> UsageHit(u, usage) in hits
  {
    if hits != [] {
      HitMember(hits[..|hits| - 1], u, usage);
      assert hits == hits[..|hits| - 1] + [hits[|hits| - 1]];
    }
  }

  lemma {:induction false} DeclarationHitMember(hits: seq<DeclarationHit>, u: Uri, d: Declaration)
    ensures d in DeclarationsOf(hits, u) <==> DeclarationHit(u, d) in hits
  {
    if hits != [] {
      DeclarationHitMember(hits[..|hits| - 1], u, d);
      assert hits == hits[..|hits| - 1] + [hits[|hits| - 1]];
    }
  }

  function InFile(u: Uri): UsageHit -> bool {
    (h: UsageHit) => h.uri == u
  }

  function UsageOfHit(): UsageHit -> Usage {
    (h: UsageHit) => h.usage
  }

  function IsRead(): Usage -> bool {
    (x: Usage) => x.kind == Read
  }

  function Itself(): Usage -> Usage {
    (x: Usage) => x
  }

  /** Where the hits of a file are. */
  lemma {:induction false} HitsSelected(hits: seq<UsageHit>, u: Uri) returns (at: seq<nat>)
    ensures Picks(at, hits, HitsOf(hits, u), InFile(u), UsageOfHit())
  {
    if hits == [] {
      at := [];
    } else {
      var front, last := hits[..|hits| - 1], hits[|hits| - 1];
      at := HitsSelected(front, u);
      PicksOneMore(at, front, HitsOf(front, u), last, InFile(u), UsageOfHit());
      assert hits == front + [last];
      if last.uri == u { at := at + [|front|]; }
    }
  }

  /** Where the reads are among the usages. */
  lemma {:induction false} ReadsSelected(usages: seq<Usage>) returns (at: seq<nat>)
    ensures Picks(at, usages, Reads(usages), IsRead(), Itself())
  {
    if usages == [] {
      at := [];
    } else {
      var front, last := usages[..|usages| - 1], usages[|usages| - 1];
      at := ReadsSelected(front);
      PicksOneMore(at, front, Reads(front), last, IsRead(), Itself());
      assert usages == front + [last];
      if last.kind == Read { at := at + [|front|]; }
    }
  }

  lemma WantedSelected(usages: seq<Usage>, includeDecl: bool) returns (at: seq<nat>)
    ensures Selects(at, usages, (x: Usage) => includeDecl || x.kind == Read)
    ensures |at| == |Wanted(usages, includeDecl)|
    ensures forall i :: 0 <= i < |at| ==> usages[at[i]] == Wanted(usages, includeDecl)[i]
  {
    if includeDecl {
      at := seq(|usages|, i requires 0 <= i < |usages| => i);
      forall k: nat | k < |usages| ensures k in at { assert at[k] == k; }
    } else {
      at := ReadsSelected(usages);
    }
  }

  /**
   The hits of an allowed file are, in order, its usages: all of them, or only the reads.  Other files
   have none.
   */
  lemma UsagesReportedInOrder(entries: Entries, allowed: set<Uri>, name: ByteString, includeDecl: bool,
                              hits: seq<UsageHit>, u: Uri)
    returns (at: seq<nat>, from: seq<nat>)
    requires AreUsageHits(entries, allowed, name, includeDecl, hits)
    ensures Selects(at, hits, (h: UsageHit) => h.uri == u)
    ensures u in entries && u in allowed ==>
              var all := Usages(entries[u], name);
              && Selects(from, all, (x: Usage) => includeDecl || x.kind == Read) && |at| == |from|
              && forall i :: 0 <= i < |at| ==> hits[at[i]] == UsageHit(u, all[from[i]])
    ensures u !in entries || u !in allowed ==> at == []
  {
    at := HitsSelected(hits, u);
    assert HitsOf(hits, u) == UsagesOf(entries, allowed, name, includeDecl, u);
    from := [];
    if u in entries && u in allowed { from := WantedSelected(Usages(entries[u], name), includeDecl); }
  }

  /** `hasDeclaration`. */
  method HasDeclaration(hits: seq<UsageHit>) returns (found: bool)
    ensures found <==> exists h :: h in hits && h.usage.kind == Write
  {
    for i := 0 to |hits|
      invariant forall k :: 0 <= k < i ==> hits[k].usage.kind != Write
    {
      if hits[i].usage.kind == Write {
        return true;
      }
    }
    return false;
  }

  /** Some file of a set declares the name. */
  ghost predicate DeclaredIn(entries: Entries, allowed: set<Uri>, name: ByteString) {
    exists u, d :: u in entries && u in allowed && d in Declarations(entries[u]) && d.name == name
  }

  /** `hasDeclaration` over the usages of some files answers whether one of the files declares the name. */
  lemma WriteHitIffDeclared(entries: Entries, allowed: set<Uri>, name: ByteString, hits: seq<UsageHit>)
    requires AreUsageHits(entries, allowed, name, true, hits) && name != []
    ensures (exists h :: h in hits && h.usage.kind == Write) <==> DeclaredIn(entries, allowed, name)
  {
    if h :| h in hits && h.usage.kind == Write {
      HitMember(hits, h.uri, h.usage);
      assert h.usage in UsagesOf(entries, allowed, name, true, h.uri);
      WrittenIffDeclared(entries[h.uri], name);
      var k :| 0 <= k < |Declarations(entries[h.uri])| && Declarations(entries[h.uri])[k].name == name;
      assert Declarations(entries[h.uri])[k] in Declarations(entries[h.uri]);
    }
    if DeclaredIn(entries, allowed, name) {
      var u, d :| u in entries && u in allowed && d in Declarations(entries[u]) && d.name == name;
      WrittenIffDeclared(entries[u], name);
      var i :| 0 <= i < |Usages(entries[u], name)| && Usages(entries[u], name)[i].kind == Write;
      assert Usages(entries[u], name)[i] in HitsOf(hits, u) by {
        assert HitsOf(hits, u) == UsagesOf(entries, allowed, name, true, u);
      }
      HitMember(hits, u, Usages(entries[u], name)[i]);
      assert UsageHit(u, Usages(entries[u], name)[i]).usage.kind == Write;
    }
  }

  /** The declarations reported for some files hold the name exactly when one of the files declares it. */
  lemma DeclarationHitIffDeclared(entries: Entries, allowed: set<Uri>, name: ByteString, hits: seq<DeclarationHit>)
    requires AreDeclarationHits(entries, allowed, hits)
    ensures (exists h :: h in hits && h.declaration.name == name) <==> DeclaredIn(entries, allowed, name)
  {
    if h :| h in hits && h.declaration.name == name {
      DeclarationHitMember(hits, h.uri, h.declaration);
      assert DeclarationsOf(hits, h.uri) == DeclarationsReported(entries, allowed, h.uri);
    }
    if DeclaredIn(entries, allowed, name) {
      var u, d :| u in entries && u in allowed && d in Declarations(entries[u]) && d.name == name;
      assert DeclarationsOf(hits, u) == DeclarationsReported(entries, allowed, u);
      DeclarationHitMember(hits, u, d);
      assert DeclarationHit(u, d).declaration.name == name;
    }
  }

  /** The usages of a name do not depend on the member of a component that the question is asked from. */
  lemma UsagesOfComponent(entries: Entries, resolve: Resolver, a: Uri, b: Uri, name: ByteString, includeDecl: bool,
                          hits: seq<UsageHit>)
    requires a in entries && b in Component(entries, resolve, a)
    ensures AreUsageHits(entries, Component(entries, resolve, a), name, includeDecl, hits)
       <==> AreUsageHits(entries, Component(entries, resolve, b), name, includeDecl, hits)
  {
    ComponentsPartition(entries, resolve, a, b);
  }
}
