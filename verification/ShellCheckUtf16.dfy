/**
 The ShellCheck converter of internal/server/diagnostics.go under UTF-16, on any bytes.

 The lemmas are about the function alone: the server lints only texts without a parse error, and the
 parser accepts no invalid UTF-8.
 */
module ShellCheckUtf16 {
  import opened Bytes
  import opened Utf8
  import opened LspPosition
  import opened Positions
  import opened ShellCheckPosition

  /** UTF-16 units of the first `n` runes from `i` on, every replaced byte counting one. */
  function RuneUnits(s: ByteString, i: nat, n: nat): nat
    requires i <= |s| && n <= |Runes(s, i)|
    decreases n
  {
    if n == 0 then 0 else (if WellFormedAt(s, i) then Units(s[i]) else 1) + RuneUnits(s, i + Width(s, i), n - 1)
  }

  /** A rune in front of a text adds its own units. */
  lemma {:induction false} UnitsOfRuneFirst(a: ByteString, b: ByteString)
    requires a != [] && Size(a[0]) == |a|
    ensures Units16(a + b, 0, |a + b|) == Units(a[0]) + Units16(b, 0, |b|)
  {
    var c := a + b;
    assert c[|a|..|c|] == b;
    UnitsOfSlice(c, |a|, 0, |c|);
  }

  lemma {:induction false} JoinedUnits(s: ByteString, i: nat, n: nat)
    requires i <= |s| && n <= |Runes(s, i)|
    ensures var joined := Join(Runes(s, i)[..n]); Units16(joined, 0, |joined|) == RuneUnits(s, i, n)
    decreases n
  {
    if n > 0 {
      var rune := if WellFormedAt(s, i) then s[i..i + Width(s, i)] else REPLACEMENT;
      JoinedUnits(s, i + Width(s, i), n - 1);
      JoinHead(s, i, n);
      UnitsOfRuneFirst(rune, Join(Runes(s, i + Width(s, i))[..n - 1]));
    }
  }

  /** For any bytes of a line the answer counts the runes, and the well-formed four-byte ones twice. */
  lemma {:induction false} ShellCheckUtf16Exact(text: ByteString, line: nat, l: ByteString, n: nat)
    requires line < |Split(text, 0)| && l == Split(text, 0)[line] && n <= |Runes(l, 0)|
    ensures ShellCheckPos(text, UTF16, line + 1, n + 1) == Position(line, RuneUnits(l, 0, n))
  {
    ShellCheckOnLine(text, UTF16, line, l, n);
    JoinedUnits(l, 0, n);
  }

  /** The walk by first bytes and the walk by runes count the same units up to the `n`-th rune. */
  predicate Agrees(s: ByteString, i: nat, n: nat)
    requires i <= |s| && n <= |Runes(s, i)|
  {
    RuneUnits(s, i, n) == Units16(s, i, AfterRunes(s, i, n).0)
  }

  /** A byte that announces `z` bytes, but is replaced, and a rune of `w` bytes after it: the counts agree. */
  predicate Fits(z: nat, w: nat) {
    (z == 2 && w == 2) || (z == 3 && w >= 3)
  }

  /**
   Every replaced byte announces one byte, or it announces two or three and is the last, or the rune
   after it makes up for the difference.
   */
  predicate Harmless(s: ByteString, i: nat)
    requires i <= |s|
    decreases |s| - i
  {
    if i == |s| then true
    else if WellFormedAt(s, i) || Size(s[i]) == 1 then Harmless(s, i + Width(s, i))
    else
      && Units(s[i]) == 1
      && (i + 1 == |s|
          || (WellFormedAt(s, i + 1) && Fits(Size(s[i]), Size(s[i + 1])) && Harmless(s, i + 1 + Size(s[i + 1]))))
  }

  lemma AgreesStep(s: ByteString, i: nat, n: nat)
    requires i < |s| && 0 < n <= |Runes(s, i)| && (WellFormedAt(s, i) || Size(s[i]) == 1)
    ensures n - 1 <= |Runes(s, i + Width(s, i))| && (Agrees(s, i, n) <==> Agrees(s, i + Width(s, i), n - 1))
  {
    assert AfterRunes(s, i, n).0 == AfterRunes(s, i + Width(s, i), n - 1).0;
  }

  /** A replaced byte that announces more than itself, and the rune after it. */
  lemma AgreesTwoSteps(s: ByteString, i: nat, n: nat)
    requires i + 1 < |s| && 2 <= n <= |Runes(s, i)| && !WellFormedAt(s, i) && Size(s[i]) > 1 && Units(s[i]) == 1
    requires WellFormedAt(s, i + 1) && Fits(Size(s[i]), Size(s[i + 1]))
    ensures n - 2 <= |Runes(s, i + 1 + Size(s[i + 1]))|
    ensures Agrees(s, i, n) <==> Agrees(s, i + 1 + Size(s[i + 1]), n - 2)
  {
    var next := i + 1 + Size(s[i + 1]);
    RunesTwo(s, i, next, n);
    WalkOverNext(s, i, AfterRunes(s, next, n - 2).0);
  }

  /** One rune, and those after it. */
  lemma RunesOne(s: ByteString, i: nat, next: nat, n: nat)
    requires i < |s| && 0 < n <= |Runes(s, i)| && next == i + Width(s, i)
    ensures n - 1 <= |Runes(s, next)| && AfterRunes(s, i, n).0 == AfterRunes(s, next, n - 1).0
    ensures RuneUnits(s, i, n) == (if WellFormedAt(s, i) then Units(s[i]) else 1) + RuneUnits(s, next, n - 1)
  {
  }

  /** The runes after a replaced byte and a well-formed rune. */
  lemma RunesTwo(s: ByteString, i: nat, next: nat, n: nat)
    requires i + 1 < |s| && 2 <= n <= |Runes(s, i)| && !WellFormedAt(s, i)
    requires WellFormedAt(s, i + 1) && next == i + 1 + Size(s[i + 1])
    ensures n - 2 <= |Runes(s, next)| && AfterRunes(s, i, n).0 == AfterRunes(s, next, n - 2).0
    ensures RuneUnits(s, i, n) == 1 + Units(s[i + 1]) + RuneUnits(s, next, n - 2)
  {
    RunesOne(s, i, i + 1, n);
    RunesOne(s, i + 1, next, n - 1);
  }

  lemma WalkOverNext(s: ByteString, i: nat, end: nat)
    requires i + 1 < |s| && Size(s[i]) > 1 && Units(s[i]) == 1
    requires WellFormedAt(s, i + 1) && Fits(Size(s[i]), Size(s[i + 1])) && i + 1 + Size(s[i + 1]) <= end <= |s|
    ensures Units16(s, i, end) == 1 + Units(s[i + 1]) + Units16(s, i + 1 + Size(s[i + 1]), end)
  {
    var z, w := Size(s[i]), Size(s[i + 1]);
    assert Units16(s, i, end) == 1 + Units16(s, i + z, end);
    assert IsContinuation(s[i + z]);
    assert Units16(s, i + z, end) == 1 + Units16(s, i + z + 1, end);
    if w == 4 {
      assert IsContinuation(s[i + 4]);
      assert Units16(s, i + 4, end) == 1 + Units16(s, i + 5, end);
    }
  }

  lemma {:induction false} HarmlessAgrees(s: ByteString, i: nat, n: nat)
    requires i <= |s| && n <= |Runes(s, i)| && Harmless(s, i)
    ensures Agrees(s, i, n)
    decreases |s| - i
  {
    if n == 0 || i == |s| {
    } else if WellFormedAt(s, i) || Size(s[i]) == 1 {
      AgreesStep(s, i, n);
      HarmlessAgrees(s, i + Width(s, i), n - 1);
    } else if n == 1 {
      assert AfterRunes(s, i, 1).0 == i + 1;
      assert Units16(s, i, i + 1) == 1;
    } else {
      assert |Runes(s, i)| == 1 + |Runes(s, i + 1)|;
      AgreesTwoSteps(s, i, n);
      HarmlessAgrees(s, i + 1 + Size(s[i + 1]), n - 2);
    }
  }

  lemma {:induction false} HarmfulDiffers(s: ByteString, i: nat) returns (n: nat)
    requires i <= |s| && !Harmless(s, i)
    ensures n <= |Runes(s, i)| && !Agrees(s, i, n)
    decreases |s| - i
  {
    if WellFormedAt(s, i) || Size(s[i]) == 1 {
      n := HarmfulDiffers(s, i + Width(s, i));
      n := n + 1;
      AgreesStep(s, i, n);
    } else if Units(s[i]) != 1 {
      n := 1;
      assert AfterRunes(s, i, 1).0 == i + 1;
    } else if WellFormedAt(s, i + 1) && Fits(Size(s[i]), Size(s[i + 1])) {
      n := HarmfulDiffers(s, i + 1 + Size(s[i + 1]));
      n := n + 2;
      assert Runes(s, i + 1) == Runes(s, i)[1..] && Runes(s, i + 1 + Size(s[i + 1])) == Runes(s, i + 1)[1..];
      AgreesTwoSteps(s, i, n);
    } else {
      n := 2;
      MisfitDiffers(s, i);
    }
  }

  lemma MisfitDiffers(s: ByteString, i: nat)
    requires i + 1 < |s| && !WellFormedAt(s, i) && Size(s[i]) > 1 && Units(s[i]) == 1
    requires !(WellFormedAt(s, i + 1) && Fits(Size(s[i]), Size(s[i + 1])))
    ensures 2 <= |Runes(s, i)| && !Agrees(s, i, 2)
  {
    var z, w := Size(s[i]), Width(s, i + 1);
    var end := i + 1 + w;
    assert Runes(s, i + 1) == Runes(s, i)[1..] && |Runes(s, i + 1)| >= 1;
    assert AfterRunes(s, i + 1, 1).0 == end && AfterRunes(s, i, 2).0 == end;
    assert RuneUnits(s, i + 1, 1) == if WellFormedAt(s, i + 1) then Units(s[i + 1]) else 1;
    assert Units16(s, i, end) == 1 + Units16(s, i + z, end);
    if i + z < end {
      assert z == 2 && w >= 3;
      assert IsContinuation(s[i + 2]) && IsContinuation(s[i + 3]);
      assert Units16(s, i + 2, end) == 1 + Units16(s, i + 3, end) == 2 + Units16(s, i + 4, end);
      if w == 4 {
        assert IsContinuation(s[i + 4]);
        assert Units16(s, i + 4, end) == 1 + Units16(s, i + 5, end);
      }
    }
  }

  lemma {:induction false} LineOfSplit(text: ByteString, line: nat, l: ByteString)
    requires line < |Split(text, 0)| && l == Split(text, 0)[line]
    ensures line <= LineNo(text, |text|) && l == Line(text, line)
  {
    SplitCount(text, 0);
    SplitLine(text, line);
  }

  lemma UnitsOfStretch(text: ByteString, ls: nat, l: ByteString, k: nat)
    requires ls + |l| <= |text| && l == text[ls..ls + |l|] && k <= |l|
    ensures Units16(text, ls, ls + k) == Units16(l, 0, k)
  {
    UnitsOfSlice(text, ls, 0, ls + k);
    UnitsOfSlice(l, 0, 0, k);
    assert text[ls..ls + k] == l[0..k];
  }

  /** What `posForOffset` returns on a line, for any bytes. */
  lemma {:induction false} PositionOnLine(text: ByteString, line: nat, l: ByteString, k: nat)
    requires line < |Split(text, 0)| && l == Split(text, 0)[line] && k <= |l|
    ensures 0 <= LineStart(text, line) && LineStart(text, line) + k <= |text|
    ensures PositionAt(text, UTF16, LineStart(text, line) + k) == Position(line, Units16(l, 0, k))
  {
    LineOfSplit(text, line, l);
    InsideLine(text, line, |l|);
    InsideLine(text, line, k);
    UnitsOfStretch(text, LineStart(text, line), l, k);
  }

  /** For column `n + 1` of a line the two converters return the same position. */
  ghost predicate ColumnAgrees(text: ByteString, line: nat, l: ByteString, n: nat)
    requires line < |Split(text, 0)| && l == Split(text, 0)[line] && n <= |Runes(l, 0)|
  {
    var k := AfterRunes(l, 0, n).0;
    PositionOnLine(text, line, l, k);
    ShellCheckPos(text, UTF16, line + 1, n + 1) == PositionAt(text, UTF16, LineStart(text, line) + k)
  }

  lemma {:induction false} ColumnAgreesIff(text: ByteString, line: nat, l: ByteString, n: nat)
    requires line < |Split(text, 0)| && l == Split(text, 0)[line] && n <= |Runes(l, 0)|
    ensures ColumnAgrees(text, line, l, n) <==> Agrees(l, 0, n)
  {
    ShellCheckUtf16Exact(text, line, l, n);
    PositionOnLine(text, line, l, AfterRunes(l, 0, n).0);
  }

  /**
   The exact condition under which the ShellCheck converter and `posForOffset` agree under UTF-16 on every
   column of a line, for any bytes.
   */
  lemma {:induction false} ShellCheckUtf16Iff(text: ByteString, line: nat, l: ByteString)
    requires line < |Split(text, 0)| && l == Split(text, 0)[line]
    ensures (forall n :: 0 <= n <= |Runes(l, 0)| ==> ColumnAgrees(text, line, l, n)) <==> Harmless(l, 0)
  {
    if Harmless(l, 0) {
      forall n | 0 <= n <= |Runes(l, 0)| ensures ColumnAgrees(text, line, l, n) {
        HarmlessAgrees(l, 0, n);
        ColumnAgreesIff(text, line, l, n);
      }
    } else {
      var n := HarmfulDiffers(l, 0);
      ColumnAgreesIff(text, line, l, n);
    }
  }
}
