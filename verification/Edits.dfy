/**
 Applying edits to a text.

 `Apply` is what LSP 3.17 ("TextEdit[]") asks of a client: all ranges refer to the original text.
 `Replace` is the special case of rename, where every edit puts the same text in place of the same
 number of bytes; `Shift` says where an offset of the name text ends up.
 */
module Edits {
  import opened Bytes
  import opened Utf8

  datatype ByteEdit = ByteEdit(start: nat, end: nat, newText: ByteString)

  /** The edit that starts at `i`; of several the first one listed. */
  function EditAt(edits: seq<ByteEdit>, i: nat): Option<ByteEdit> {
    if edits == [] then None
    else if edits[0].start == i then Some(edits[0])
    else EditAt(edits[1..], i)
  }

  predicate InBounds(text: ByteString, edits: seq<ByteEdit>) {
    forall k :: 0 <= k < |edits| ==> edits[k].start < edits[k].end <= |text|
  }

  lemma {:induction false} EditAtMember(edits: seq<ByteEdit>, i: nat)
    ensures EditAt(edits, i).None? <==> forall k :: 0 <= k < |edits| ==> edits[k].start != i
    ensures EditAt(edits, i).Some? ==>
      exists k :: 0 <= k < |edits| && edits[k] == EditAt(edits, i).value && edits[k].start == i
  {
    if edits != [] && edits[0].start != i {
      EditAtMember(edits[1..], i);
      if EditAt(edits, i).Some? {
        var k :| 0 <= k < |edits[1..]| && edits[1..][k] == EditAt(edits, i).value && edits[1..][k].start == i;
        assert edits[k + 1] == edits[1..][k];
      } else {
        forall k | 0 <= k < |edits| ensures edits[k].start != i {
          if k > 0 { assert edits[k] == edits[1..][k - 1]; }
        }
      }
    }
  }

  /** The edited text from offset `i` on. */
  function Apply(text: ByteString, edits: seq<ByteEdit>, i: nat): ByteString
    requires InBounds(text, edits) && i <= |text|
    decreases |text| - i
  {
    if i == |text| then []
    else
      EditAtMember(edits, i);
      match EditAt(edits, i)
      case Some(e) => e.newText + Apply(text, edits, e.end)
      case None => [text[i]] + Apply(text, edits, i + 1)
  }

  // ----- replacing one text at a set of sites

  /** `name` occurs at every site and the occurrences do not overlap. */
  predicate Sites(text: ByteString, sites: set<nat>, name: ByteString) {
    && name != []
    && (forall s {:trigger s in sites} :: s in sites ==> s + |name| <= |text| && text[s..s + |name|] == name)
    && (forall s, t {:trigger s in sites, t in sites} :: s in sites && t in sites && s < t ==> s + |name| <= t)
  }

  /** The offset is not strictly inside an occurrence. */
  predicate Kept(sites: set<nat>, size: nat, k: nat) {
    forall s {:trigger s in sites} :: s in sites ==> k <= s || s + size <= k
  }

  /** The bytes `[i, j)` of the text with every site in them replaced. */
  function Replace(text: ByteString, sites: set<nat>, size: nat, newName: ByteString, i: nat, j: nat): ByteString
    requires i <= j <= |text| && size > 0
    decreases j - i
  {
    if i == j then []
    else if i in sites && i + size <= j then newName + Replace(text, sites, size, newName, i + size, j)
    else [text[i]] + Replace(text, sites, size, newName, i + 1, j)
  }

  function Replaced(text: ByteString, sites: set<nat>, name: ByteString, newName: ByteString): ByteString
    requires name != []
  {
    Replace(text, sites, |name|, newName, 0, |text|)
  }

  /** Where an offset of the text ends up. */
  function Shift(text: ByteString, sites: set<nat>, name: ByteString, newName: ByteString, off: nat): nat
    requires name != [] && off <= |text|
  {
    |Replace(text, sites, |name|, newName, 0, off)|
  }

  /** The edits put `newName` in place of `size` bytes at exactly the sites. */
  ghost predicate EditsAtSites(edits: seq<ByteEdit>, sites: set<nat>, size: nat, newName: ByteString) {
    && (forall k :: 0 <= k < |edits| ==> edits[k] == ByteEdit(edits[k].start, edits[k].start + size, newName))
    && (forall s :: s in sites <==> exists k :: 0 <= k < |edits| && edits[k].start == s)
  }

  lemma {:induction false} EditAtSite(edits: seq<ByteEdit>, sites: set<nat>, size: nat, newName: ByteString, i: nat)
    requires EditsAtSites(edits, sites, size, newName)
    ensures EditAt(edits, i) == if i in sites then Some(ByteEdit(i, i + size, newName)) else None
  {
    EditAtMember(edits, i);
  }

  /** One step of a replacement: a site. */
  lemma ReplaceAtSite(text: ByteString, sites: set<nat>, size: nat, newName: ByteString, i: nat, j: nat)
    requires i < j <= |text| && size > 0 && i in sites && i + size <= j
    ensures Replace(text, sites, size, newName, i, j) == newName + Replace(text, sites, size, newName, i + size, j)
  {
  }

  /** One step of a replacement: any other byte. */
  lemma ReplaceAtByte(text: ByteString, sites: set<nat>, size: nat, newName: ByteString, i: nat, j: nat)
    requires i < j <= |text| && size > 0 && i !in sites
    ensures Replace(text, sites, size, newName, i, j) == [text[i]] + Replace(text, sites, size, newName, i + 1, j)
  {
  }

  lemma {:induction false} ApplyAtEdit(text: ByteString, edits: seq<ByteEdit>, i: nat, e: ByteEdit)
    requires InBounds(text, edits) && i < e.end <= |text| && EditAt(edits, i) == Some(e)
    ensures Apply(text, edits, i) == e.newText + Apply(text, edits, e.end)
  {
  }

  lemma ApplyAtByte(text: ByteString, edits: seq<ByteEdit>, i: nat)
    requires InBounds(text, edits) && i < |text| && EditAt(edits, i) == None
    ensures Apply(text, edits, i) == [text[i]] + Apply(text, edits, i + 1)
  {
  }

  /** Applying edits that replace `size` bytes at exactly the sites is replacing at the sites. */
  lemma {:induction false} ApplyIsReplace(text: ByteString, edits: seq<ByteEdit>, sites: set<nat>, size: nat,
                                          newName: ByteString, i: nat)
    requires InBounds(text, edits) && size > 0 && i <= |text|
    requires forall s {:trigger s in sites} :: s in sites ==> s + size <= |text|
    requires EditsAtSites(edits, sites, size, newName)
    ensures Apply(text, edits, i) == Replace(text, sites, size, newName, i, |text|)
    decreases |text| - i
  {
    if i == |text| {
    } else if i in sites {
      EditAtSite(edits, sites, size, newName, i);
      ApplyIsReplace(text, edits, sites, size, newName, i + size);
      ApplyAtEdit(text, edits, i, ByteEdit(i, i + size, newName));
      ReplaceAtSite(text, sites, size, newName, i, |text|);
    } else {
      EditAtSite(edits, sites, size, newName, i);
      ApplyIsReplace(text, edits, sites, size, newName, i + 1);
      ApplyAtByte(text, edits, i);
      ReplaceAtByte(text, sites, size, newName, i, |text|);
    }
  }

  /** A kept offset cuts the replacement in two. */
  lemma {:induction false} ReplaceSplit(text: ByteString, sites: set<nat>, size: nat, newName: ByteString, i: nat,
                                        k: nat, j: nat)
    requires i <= k <= j <= |text| && size > 0 && Kept(sites, size, k)
    ensures Replace(text, sites, size, newName, i, j)
        == Replace(text, sites, size, newName, i, k) + Replace(text, sites, size, newName, k, j)
    decreases k - i
  {
    if i < k {
      ReplaceSplit(text, sites, size, newName, if i in sites then i + size else i + 1, k, j);
    }
  }

  /** Without a site nothing changes. */
  lemma {:induction false} ReplaceNothing(text: ByteString, sites: set<nat>, size: nat, newName: ByteString, i: nat,
                                          j: nat)
    requires i <= j <= |text| && size > 0 && forall s :: i <= s < j ==> s !in sites
    ensures Replace(text, sites, size, newName, i, j) == text[i..j]
    decreases j - i
  {
    if i < j { ReplaceNothing(text, sites, size, newName, i + 1, j); }
  }

  /** The replacement of a stretch is found between the images of its ends. */
  lemma {:induction false} ReplacedBetween(text: ByteString, sites: set<nat>, name: ByteString, newName: ByteString,
                                           a: nat, b: nat)
    requires name != [] && a <= b <= |text| && Kept(sites, |name|, a) && Kept(sites, |name|, b)
    ensures var r := Replaced(text, sites, name, newName);
      var sa, sb := Shift(text, sites, name, newName, a), Shift(text, sites, name, newName, b);
      && sa <= sb <= |r| && r[sa..sb] == Replace(text, sites, |name|, newName, a, b)
      && sb == sa + |Replace(text, sites, |name|, newName, a, b)|
  {
    ReplaceSplit(text, sites, |name|, newName, 0, b, |text|);
    ReplaceSplit(text, sites, |name|, newName, 0, a, b);
  }

  /** At a site the new text stands; a stretch that meets no site is kept. */
  lemma StretchImage(text: ByteString, sites: set<nat>, name: ByteString, newName: ByteString, a: nat, b: nat)
    requires Sites(text, sites, name) && a <= b <= |text| && Kept(sites, |name|, a) && Kept(sites, |name|, b)
    requires (a in sites && b == a + |name|) || forall s :: a <= s < b ==> s !in sites
    ensures var r := Replaced(text, sites, name, newName);
      var sa, sb := Shift(text, sites, name, newName, a), Shift(text, sites, name, newName, b);
      && sa <= sb <= |r|
      && r[sa..sb] == if a in sites && b == a + |name| then newName else text[a..b]
  {
    ReplacedBetween(text, sites, name, newName, a, b);
    if a in sites && b == a + |name| {
      assert Replace(text, sites, |name|, newName, b, b) == [];
    } else {
      ReplaceNothing(text, sites, |name|, newName, a, b);
    }
  }

  /** Both ends of a site are kept. */
  lemma SiteKept(text: ByteString, sites: set<nat>, name: ByteString, s: nat)
    requires Sites(text, sites, name) && s in sites
    ensures Kept(sites, |name|, s) && Kept(sites, |name|, s + |name|) && s + |name| <= |text|
  {
  }

  /** Kept offsets keep their order. */
  lemma ShiftMonotone(text: ByteString, sites: set<nat>, name: ByteString, newName: ByteString, a: nat, b: nat)
    requires name != [] && newName != [] && a < b <= |text| && Kept(sites, |name|, a) && Kept(sites, |name|, b)
    ensures Shift(text, sites, name, newName, a) < Shift(text, sites, name, newName, b)
  {
    ReplacedBetween(text, sites, name, newName, a, b);
  }

  /** The sites in `[i, j)`. */
  function SitesIn(sites: set<nat>, i: nat, j: nat): set<nat> {
    set s | s in sites && i <= s < j
  }

  lemma OneSiteMore(sites: set<nat>, size: nat, i: nat, j: nat)
    requires i in sites && size > 0 && i + size <= j
    requires forall t :: t in sites && i < t ==> i + size <= t
    ensures |SitesIn(sites, i, j)| == 1 + |SitesIn(sites, i + size, j)|
  {
    assert SitesIn(sites, i, j) == {i} + SitesIn(sites, i + size, j);
  }

  lemma {:induction false} ReplaceLength(text: ByteString, sites: set<nat>, name: ByteString, newName: ByteString,
                                         i: nat, j: nat)
    requires Sites(text, sites, name) && i <= j <= |text| && Kept(sites, |name|, j)
    ensures |Replace(text, sites, |name|, newName, i, j)| == j - i + |SitesIn(sites, i, j)| * (|newName| - |name|)
    decreases j - i
  {
    if i == j {
      assert SitesIn(sites, i, j) == {};
    } else if i in sites {
      ReplaceLength(text, sites, name, newName, i + |name|, j);
      OneSiteMore(sites, |name|, i, j);
      Distribute(|SitesIn(sites, i + |name|, j)|, |newName| - |name|);
    } else {
      ReplaceLength(text, sites, name, newName, i + 1, j);
      assert SitesIn(sites, i, j) == SitesIn(sites, i + 1, j);
    }
  }

  lemma Distribute(n: int, d: int)
    ensures (1 + n) * d == d + n * d
  {
  }

  /** An offset moves by the difference in length, once for every site before it. */
  lemma ShiftIsPrefixSum(text: ByteString, sites: set<nat>, name: ByteString, newName: ByteString, off: nat)
    requires Sites(text, sites, name) && off <= |text| && Kept(sites, |name|, off)
    ensures Shift(text, sites, name, newName, off) == off + |SitesIn(sites, 0, off)| * (|newName| - |name|)
  {
    ReplaceLength(text, sites, name, newName, 0, off);
  }

  // ----- undoing a replacement

  function ShiftedSites(text: ByteString, sites: set<nat>, name: ByteString, newName: ByteString): set<nat>
    requires Sites(text, sites, name)
  {
    set s | s in sites :: Shift(text, sites, name, newName, s)
  }

  lemma SiteImage(text: ByteString, sites: set<nat>, name: ByteString, newName: ByteString, s: nat)
    requires Sites(text, sites, name) && s in sites
    ensures var r, t := Replaced(text, sites, name, newName), Shift(text, sites, name, newName, s);
      && t + |newName| <= |r| && r[t..t + |newName|] == newName
      && Shift(text, sites, name, newName, s + |name|) == t + |newName|
  {
    SiteKept(text, sites, name, s);
    StretchImage(text, sites, name, newName, s, s + |name|);
    ReplacedBetween(text, sites, name, newName, s, s + |name|);
    assert Replace(text, sites, |name|, newName, s + |name|, s + |name|) == [];
  }

  /** A kept offset that is no site does not become the image of one. */
  lemma NoNewSite(text: ByteString, sites: set<nat>, name: ByteString, newName: ByteString, i: nat)
    requires Sites(text, sites, name) && newName != [] && i <= |text| && Kept(sites, |name|, i) && i !in sites
    ensures Shift(text, sites, name, newName, i) !in ShiftedSites(text, sites, name, newName)
  {
    forall s | s in sites ensures Shift(text, sites, name, newName, s) != Shift(text, sites, name, newName, i) {
      SiteKept(text, sites, name, s);
      if s < i {
        ShiftMonotone(text, sites, name, newName, s, i);
      } else {
        ShiftMonotone(text, sites, name, newName, i, s);
      }
    }
  }

  /** A byte outside the sites is found, alone, at the image of its offset. */
  lemma ByteImage(text: ByteString, sites: set<nat>, name: ByteString, newName: ByteString, i: nat)
    requires Sites(text, sites, name) && i < |text| && Kept(sites, |name|, i) && i !in sites
    ensures var r, t := Replaced(text, sites, name, newName), Shift(text, sites, name, newName, i);
      t < |r| && r[t] == text[i] && Shift(text, sites, name, newName, i + 1) == t + 1
  {
    var r, t := Replaced(text, sites, name, newName), Shift(text, sites, name, newName, i);
    StretchImage(text, sites, name, newName, i, i + 1);
    ReplacedBetween(text, sites, name, newName, i, i + 1);
    ReplaceNothing(text, sites, |name|, newName, i, i + 1);
    assert r[t] == r[t..t + 1][0];
  }

  /** From the image of an offset on, the replacement undone is the old text from that offset on. */
  ghost predicate UndoneFrom(text: ByteString, sites: set<nat>, name: ByteString, newName: ByteString, i: nat)
    requires Sites(text, sites, name) && newName != [] && i <= |text|
  {
    var r, t := Replaced(text, sites, name, newName), Shift(text, sites, name, newName, i);
    && t <= |r|
    && Replace(r, ShiftedSites(text, sites, name, newName), |newName|, name, t, |r|) == text[i..]
  }

  lemma UndoAtSite(text: ByteString, sites: set<nat>, name: ByteString, newName: ByteString, i: nat)
    requires Sites(text, sites, name) && newName != [] && i in sites && i + |name| <= |text|
    requires UndoneFrom(text, sites, name, newName, i + |name|)
    ensures UndoneFrom(text, sites, name, newName, i)
  {
    var r, t := Replaced(text, sites, name, newName), Shift(text, sites, name, newName, i);
    SiteImage(text, sites, name, newName, i);
    ReplaceAtSite(r, ShiftedSites(text, sites, name, newName), |newName|, name, t, |r|);
    assert text[i..] == text[i..i + |name|] + text[i + |name|..];
  }

  lemma UndoAtByte(text: ByteString, sites: set<nat>, name: ByteString, newName: ByteString, i: nat)
    requires Sites(text, sites, name) && newName != [] && i < |text| && Kept(sites, |name|, i) && i !in sites
    requires UndoneFrom(text, sites, name, newName, i + 1)
    ensures UndoneFrom(text, sites, name, newName, i)
  {
    var r, t := Replaced(text, sites, name, newName), Shift(text, sites, name, newName, i);
    ByteImage(text, sites, name, newName, i);
    NoNewSite(text, sites, name, newName, i);
    ReplaceAtByte(r, ShiftedSites(text, sites, name, newName), |newName|, name, t, |r|);
    assert text[i..] == [text[i]] + text[i + 1..];
  }

  lemma {:induction false} UndoFrom(text: ByteString, sites: set<nat>, name: ByteString, newName: ByteString, i: nat)
    requires Sites(text, sites, name) && newName != [] && i <= |text| && Kept(sites, |name|, i)
    ensures UndoneFrom(text, sites, name, newName, i)
    decreases |text| - i
  {
    if i == |text| {
    } else if i in sites {
      SiteKept(text, sites, name, i);
      UndoFrom(text, sites, name, newName, i + |name|);
      UndoAtSite(text, sites, name, newName, i);
    } else {
      UndoFrom(text, sites, name, newName, i + 1);
      UndoAtByte(text, sites, name, newName, i);
    }
  }

  /** Putting the old text back at the images of the sites restores the text. */
  lemma ReplaceUndo(text: ByteString, sites: set<nat>, name: ByteString, newName: ByteString)
    requires Sites(text, sites, name) && newName != []
    ensures Replaced(Replaced(text, sites, name, newName), ShiftedSites(text, sites, name, newName), newName, name)
        == text
  {
    assert Shift(text, sites, name, newName, 0) == 0;
    UndoFrom(text, sites, name, newName, 0);
  }

  // ----- valid texts stay valid

  lemma ValidConcat(a: ByteString, b: ByteString)
    requires Valid(a) && Valid(b)
    ensures Valid(a + b)
  {
    var c := a + b;
    forall i | 0 <= i < |c| && IsBoundary(c, i) ensures WellFormedAt(c, i) && IsBoundary(c, i + Size(c[i])) {
      if i < |a| {
        assert WellFormedAt(a, i);
      } else {
        assert WellFormedAt(b, i - |a|);
      }
    }
  }

  predicate Ascii(s: ByteString) {
    forall k :: 0 <= k < |s| ==> s[k] < 0x80
  }

  lemma AsciiValid(s: ByteString)
    requires Ascii(s)
    ensures Valid(s)
  {
    forall i | 0 <= i < |s| ensures WellFormedAt(s, i) && IsBoundary(s, i + Size(s[i])) {
    }
  }

  /** In a valid text an ASCII occurrence starts and ends at rune boundaries. */
  lemma AsciiBoundaries(text: ByteString, name: ByteString, s: nat)
    requires Valid(text) && Ascii(name) && name != [] && s + |name| <= |text| && text[s..s + |name|] == name
    ensures IsBoundary(text, s) && IsBoundary(text, s + |name|)
  {
    assert text[s] == name[0] && text[s + |name| - 1] == name[|name| - 1];
    assert WellFormedAt(text, s + |name| - 1);
  }

  lemma {:induction false} ReplaceValid(text: ByteString, sites: set<nat>, name: ByteString, newName: ByteString,
                                        from: nat, i: nat)
    requires Valid(text) && Sites(text, sites, name) && Ascii(name) && Ascii(newName)
    requires from <= i <= |text| && IsBoundary(text, from) && forall s :: from <= s < i ==> s !in sites
    requires Kept(sites, |name|, i)
    ensures Valid(Replace(text, sites, |name|, newName, from, |text|))
    decreases |text| - i
  {
    if i == |text| {
      ReplaceNothing(text, sites, |name|, newName, from, i);
      SliceValid(text, from, i);
    } else if i in sites {
      ReplaceNothing(text, sites, |name|, newName, from, i);
      ReplaceSplit(text, sites, |name|, newName, from, i, |text|);
      SiteKept(text, sites, name, i);
      AsciiBoundaries(text, name, i);
      ReplaceValid(text, sites, name, newName, i + |name|, i + |name|);
      SliceValid(text, from, i);
      AsciiValid(newName);
      var rest := Replace(text, sites, |name|, newName, i + |name|, |text|);
      ValidConcat(newName, rest);
      ValidConcat(text[from..i], newName + rest);
    } else {
      ReplaceValid(text, sites, name, newName, from, i + 1);
    }
  }

  /** Replacing ASCII by ASCII keeps a valid text valid. */
  lemma ReplacedValid(text: ByteString, sites: set<nat>, name: ByteString, newName: ByteString)
    requires Valid(text) && Sites(text, sites, name) && Ascii(name) && Ascii(newName)
    ensures Valid(Replaced(text, sites, name, newName))
  {
    ReplaceValid(text, sites, name, newName, 0, 0);
  }
}
