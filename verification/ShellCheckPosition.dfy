/**
 The third converter: ShellCheck's line and code-point column (internal/server/diagnostics.go).

 It goes through `strings.Split` and `[]rune`, so it meets Go's decoder, which replaces every byte
 that starts no well-formed rune by U+FFFD. A decoded rune is represented by its UTF-8 encoding.
 */
module ShellCheckPosition {
  import opened Bytes
  import opened Utf8
  import opened LspPosition
  import opened Positions

  const REPLACEMENT: ByteString := [0xEF, 0xBF, 0xBD]

  /** Bytes that Go's decoder takes at `i`. */
  function Width(s: ByteString, i: nat): (n: nat)
    requires i < |s|
    ensures 1 <= n && i + n <= |s|
  {
    if WellFormedAt(s, i) then Size(s[i]) else 1
  }

  /** `[]rune(s)` from offset `i` on. */
  function Runes(s: ByteString, i: nat): seq<ByteString>
    requires i <= |s|
    decreases |s| - i
  {
    if i == |s| then []
    else [if WellFormedAt(s, i) then s[i..i + Width(s, i)] else REPLACEMENT] + Runes(s, i + Width(s, i))
  }

  /** `string(runes)`. */
  function Join(runes: seq<ByteString>): ByteString {
    if runes == [] then [] else runes[0] + Join(runes[1..])
  }

  /** `strings.Split(s, "\n")` from the line that starts at `i` on. */
  function Split(s: ByteString, i: nat): (lines: seq<ByteString>)
    requires i <= |s|
    ensures |lines| >= 1
    decreases |s| - i
  {
    [s[i..LineEnd(s, i)]] +
    if LineEnd(s, i) == |s| then [] else Split(s, LineEnd(s, i) + 1)
  }

  /** The character of a code-point count within one line: unchanged when the line is shorter. */
  function Character(line: ByteString, enc: Encoding, codePoints: nat): nat {
    var runes := Runes(line, 0);
    if codePoints > |runes| then codePoints
    else
      var prefix := Join(runes[..codePoints]);
      match enc
      case UTF8 => |prefix|
      case UTF32 => codePoints
      case UTF16 => Units16(prefix, 0, |prefix|)
  }

  /** `shellCheckPosition`. */
  function ShellCheckPos(text: ByteString, enc: Encoding, line0: int, column0: int): Position {
    var line := if line0 <= 0 then 1 else line0;
    var column := if column0 <= 0 then 1 else column0;
    var lines := Split(text, 0);
    if line > |lines| then Position(line - 1, column - 1)
    else Position(line - 1, Character(lines[line - 1], enc, column - 1))
  }

  /** `shellCheckSourceRange`. */
  function SourceRange(text: ByteString, enc: Encoding, line: int, column: int, endLine: int,
                       endColumn: int): (r: Range)
    ensures !Before(r.end, r.start)
  {
    var start := ShellCheckPos(text, enc, line, column);
    var end := ShellCheckPos(text, enc,
                             if endLine <= 0 then line else endLine,
                             if endColumn <= 0 then column + 1 else endColumn);
    if end.line < start.line || (end.line == start.line && end.character < start.character) then Range(start, start)
    else Range(start, end)
  }

  // ----- the lines of a text

  /** The rest of the text after the first line. */
  lemma SplitRest(s: ByteString, i: nat)
    requires i <= |s| && LineBegin(s, i) == i
    ensures var e := LineEnd(s, i);
      && LineStart(s, LineNo(s, i)) == i
      && (e < |s| ==> LineBegin(s, e + 1) == e + 1 && LineNo(s, e + 1) == LineNo(s, i) + 1)
      && (e == |s| ==> LineNo(s, |s|) == LineNo(s, i))
      && LineNo(s, i) <= LineNo(s, |s|)
  {
    LineEndClear(s, i);
    SameLine(s, i, LineEnd(s, i));
    LineStartUnique(s, i);
    LineNoMonotone(s, i, |s|);
  }

  /** A text splits into as many lines as it has newlines, plus one. */
  lemma {:induction false} SplitCount(s: ByteString, i: nat)
    requires i <= |s| && LineBegin(s, i) == i
    ensures |Split(s, i)| == LineNo(s, |s|) - LineNo(s, i) + 1
    decreases |s| - i
  {
    SplitRest(s, i);
    if LineEnd(s, i) < |s| { SplitCount(s, LineEnd(s, i) + 1); }
  }

  /** The bytes of a line, without the newline that ends it. */
  function Line(s: ByteString, line: nat): ByteString
    requires line <= LineNo(s, |s|)
  {
    var ls := LineStart(s, line);
    s[ls..LineEnd(s, ls)]
  }

  lemma {:induction false} SplitHead(s: ByteString, i: nat)
    requires i <= |s| && LineBegin(s, i) == i && LineNo(s, i) <= LineNo(s, |s|)
    ensures Split(s, i)[0] == Line(s, LineNo(s, i))
  {
    LineStartUnique(s, i);
  }

  lemma SplitTail(s: ByteString, i: nat, k: nat)
    requires i <= |s| && LineEnd(s, i) < |s| && k < |Split(s, LineEnd(s, i) + 1)|
    ensures k + 1 < |Split(s, i)| && Split(s, i)[k + 1] == Split(s, LineEnd(s, i) + 1)[k]
  {
  }

  /** The lines of a split are the lines of the text; the split may start at a later line. */
  lemma {:induction false} SplitLineFrom(s: ByteString, i: nat, k: nat, line: nat)
    requires i <= |s| && LineBegin(s, i) == i && LineNo(s, i) + k == line <= LineNo(s, |s|)
    ensures k < |Split(s, i)| && Split(s, i)[k] == Line(s, line)
    decreases k
  {
    if k == 0 {
      SplitHead(s, i);
    } else {
      var e := LineEnd(s, i);
      SplitRest(s, i);
      assert e < |s|;
      SplitLineFrom(s, e + 1, k - 1, line);
      SplitTail(s, i, k - 1);
    }
  }

  lemma {:induction false} SplitLine(s: ByteString, line: nat)
    requires line <= LineNo(s, |s|)
    ensures line < |Split(s, 0)| && Split(s, 0)[line] == Line(s, line)
  {
    SplitLineFrom(s, 0, line, line);
  }

  // ----- decoding

  /** Where the decoder is after `n` runes from `i`, and how many of them were not well formed. */
  function AfterRunes(s: ByteString, i: nat, n: nat): (r: (nat, nat))
    requires i <= |s| && n <= |Runes(s, i)|
    ensures i <= r.0 <= |s|
    decreases n
  {
    if n == 0 then (i, 0)
    else
      var (end, bad) := AfterRunes(s, i + Width(s, i), n - 1);
      (end, bad + if WellFormedAt(s, i) then 0 else 1)
  }

  lemma JoinHead(s: ByteString, i: nat, n: nat)
    requires i < |s| && 0 < n <= |Runes(s, i)|
    ensures Join(Runes(s, i)[..n])
         == (if WellFormedAt(s, i) then s[i..i + Width(s, i)] else REPLACEMENT)
         + Join(Runes(s, i + Width(s, i))[..n - 1])
  {
    assert Runes(s, i)[..n][1..] == Runes(s, i + Width(s, i))[..n - 1];
  }

  /**
   For any bytes: the text rebuilt from the first `n` runes is longer than the bytes they were decoded
   from by two for every byte that had to be replaced.
   */
  lemma {:induction false} JoinedLength(s: ByteString, i: nat, n: nat)
    requires i <= |s| && n <= |Runes(s, i)|
    ensures var (end, bad) := AfterRunes(s, i, n); |Join(Runes(s, i)[..n])| == end - i + 2 * bad
    decreases n
  {
    if n > 0 {
      JoinedLength(s, i + Width(s, i), n - 1);
      JoinHead(s, i, n);
    }
  }

  /** Without replaced bytes the rebuilt prefix is the prefix. */
  lemma {:induction false} JoinedPrefix(s: ByteString, i: nat, n: nat)
    requires i <= |s| && n <= |Runes(s, i)| && AfterRunes(s, i, n).1 == 0
    ensures Join(Runes(s, i)[..n]) == s[i..AfterRunes(s, i, n).0]
    decreases n
  {
    if n > 0 {
      var next := i + Width(s, i);
      JoinedPrefix(s, next, n - 1);
      JoinHead(s, i, n);
      var end := AfterRunes(s, next, n - 1).0;
      assert AfterRunes(s, i, n).0 == end;
      assert s[i..next] + s[next..end] == s[i..end];
    }
  }

  /** A text is valid exactly when Go's decoder replaces nothing in it. */
  lemma {:induction false} ValidIffNothingReplaced(s: ByteString)
    ensures Valid(s) <==> AfterRunes(s, 0, |Runes(s, 0)|).1 == 0
  {
    if Valid(s) {
      ValidReplacesNothing(s, 0, |Runes(s, 0)|);
    } else if AfterRunes(s, 0, |Runes(s, 0)|).1 == 0 {
      assert IsBoundary(s, 0) by { if s != [] { assert WellFormedAt(s, 0); } }
      forall i | 0 <= i < |s| && IsBoundary(s, i)
        ensures WellFormedAt(s, i) && IsBoundary(s, i + Size(s[i]))
      {
        NothingReplacedTiles(s, 0, i);
      }
    }
  }

  lemma {:induction false} ValidReplacesNothing(s: ByteString, i: nat, n: nat)
    requires Valid(s) && IsBoundary(s, i) && n <= |Runes(s, i)|
    ensures AfterRunes(s, i, n).1 == 0 && IsBoundary(s, AfterRunes(s, i, n).0)
    decreases n
  {
    if n > 0 {
      assert WellFormedAt(s, i);
      ValidReplacesNothing(s, i + Width(s, i), n - 1);
    }
  }

  lemma {:induction false} NothingReplacedTiles(s: ByteString, from: nat, i: nat)
    requires from <= i < |s| && AfterRunes(s, from, |Runes(s, from)|).1 == 0 && !IsContinuation(s[i])
    ensures WellFormedAt(s, i) && IsBoundary(s, i + Size(s[i]))
    decreases i - from
  {
    var next := from + Size(s[from]);
    assert WellFormedAt(s, from);
    if from == i {
      if next < |s| { assert WellFormedAt(s, next); }
    } else {
      NothingReplacedTiles(s, next, i);
    }
  }

  // ----- agreement

  /** Code points between two boundaries. */
  function CodePoints(s: ByteString, i: nat, j: nat): nat
    requires j <= |s|
    decreases j - i
  {
    if i >= j then 0 else 1 + CodePoints(s, i + Size(s[i]), j)
  }

  /** Decoding the code points between two boundaries of a valid text ends at the second one. */
  lemma {:induction false} AfterCodePoints(s: ByteString, i: nat, j: nat)
    requires Valid(s) && i <= j <= |s| && IsBoundary(s, i) && IsBoundary(s, j)
    ensures CodePoints(s, i, j) <= |Runes(s, i)|
    ensures AfterRunes(s, i, CodePoints(s, i, j)) == (j, 0)
    decreases j - i
  {
    if i < j {
      NextBoundary(s, i, j);
      assert WellFormedAt(s, i) && Width(s, i) == Size(s[i]);
      AfterCodePoints(s, i + Size(s[i]), j);
      assert |Runes(s, i)| == 1 + |Runes(s, i + Size(s[i]))|;
    }
  }

  lemma {:induction false} CodePointsOfSlice(s: ByteString, a: nat, b: nat, i: nat, j: nat)
    requires a <= b <= |s| && a + j <= b
    ensures CodePoints(s[a..b], i, j) == CodePoints(s, a + i, a + j)
    decreases j - i
  {
    if i < j { CodePointsOfSlice(s, a, b, i + Size(s[a + i]), j); }
  }

  /** The line an offset lies on. */
  lemma {:induction false} LineOfOffset(text: ByteString, off: nat)
    requires off <= |text|
    ensures off <= LineEnd(text, LineBegin(text, off)) && LineNo(text, off) < |Split(text, 0)|
    ensures Split(text, 0)[LineNo(text, off)] == text[LineBegin(text, off)..LineEnd(text, LineBegin(text, off))]
  {
    LineNoMonotone(text, off, |text|);
    assert off <= LineEnd(text, LineBegin(text, off)) by {
      LineBeginClear(text, off);
      LineEndSkip(text, LineBegin(text, off), off);
    }
    LineStartUnique(text, off);
    SplitLine(text, LineNo(text, off));
  }

  /** What the converter does with a line that exists. */
  lemma {:induction false} ShellCheckOnLine(text: ByteString, enc: Encoding, line: nat, l: ByteString, n: nat)
    requires line < |Split(text, 0)| && l == Split(text, 0)[line]
    ensures ShellCheckPos(text, enc, line + 1, n + 1) == Position(line, Character(l, enc, n))
  {
  }

  /** The code points of a stretch of a line of a valid text are decoded as that stretch. */
  lemma {:induction false} DecodedStretch(text: ByteString, ls: nat, off: nat, le: nat)
    requires Valid(text) && ls <= off <= le <= |text|
    requires IsBoundary(text, ls) && IsBoundary(text, off) && IsBoundary(text, le)
    ensures var l, n := text[ls..le], CodePoints(text, ls, off);
      n <= |Runes(l, 0)| && Join(Runes(l, 0)[..n]) == text[ls..off]
  {
    var l := text[ls..le];
    SliceValid(text, ls, le);
    CodePointsOfSlice(text, ls, le, 0, off - ls);
    AfterCodePoints(l, 0, off - ls);
    JoinedPrefix(l, 0, CodePoints(text, ls, off));
    assert l[0..off - ls] == text[ls..off];
  }

  /** On the line of a valid text, a code-point count becomes the code units it spans. */
  lemma {:induction false} CharacterAgrees(text: ByteString, enc: Encoding, ls: nat, off: nat, le: nat)
    requires Valid(text) && ls <= off <= le <= |text| && enc != UTF32
    requires IsBoundary(text, ls) && IsBoundary(text, off) && IsBoundary(text, le)
    ensures Character(text[ls..le], enc, CodePoints(text, ls, off)) == CodeUnits(text, enc, ls, off)
  {
    DecodedStretch(text, ls, off, le);
    UnitsOfSlice(text, ls, 0, off);
  }

  /**
   On a valid text, the ShellCheck converter given the 1-based line and code-point column of an
   offset returns the position `posForOffset` returns for that offset.
   */
  lemma {:induction false} ShellCheckAgrees(text: ByteString, enc: Encoding, off: nat)
    requires Valid(text) && IsBoundary(text, off) && enc != UTF32
    ensures ShellCheckPos(text, enc, LineNo(text, off) + 1, CodePoints(text, LineBegin(text, off), off) + 1)
            == PositionAt(text, enc, off)
  {
    var ls := LineBegin(text, off);
    var le := LineEnd(text, ls);
    var n := CodePoints(text, ls, off);
    LineOfOffset(text, off);
    ShellCheckOnLine(text, enc, LineNo(text, off), text[ls..le], n);
    assert Character(text[ls..le], enc, n) == CodeUnits(text, enc, ls, off) by {
      LineBoundaries(text, off);
      LineBoundaries(text, ls);
      CharacterAgrees(text, enc, ls, off, le);
    }
  }

  /** The range of two converted ends, which is empty if they are in the wrong order. */
  lemma SourceRangeOf(text: ByteString, enc: Encoding, line: int, column: int, endLine: int, endColumn: int,
                      a: Position, b: Position)
    requires ShellCheckPos(text, enc, line, column) == a
    requires ShellCheckPos(text, enc, if endLine <= 0 then line else endLine,
                           if endColumn <= 0 then column + 1 else endColumn) == b
    ensures SourceRange(text, enc, line, column, endLine, endColumn)
         == if Before(b, a) then Range(a, a) else Range(a, b)
  {
  }

  /** The 1-based code-point column of an offset. */
  function Column(text: ByteString, off: nat): nat
    requires off <= |text|
  {
    CodePoints(text, LineBegin(text, off), off) + 1
  }

  /**
   On a valid text a finding from one offset to another becomes the range of those offsets, or an empty
   range at its start if it ends before it starts.
   */
  lemma SourceRangeAgrees(text: ByteString, enc: Encoding, i: nat, j: nat)
    requires Valid(text) && IsBoundary(text, i) && IsBoundary(text, j) && enc != UTF32
    ensures SourceRange(text, enc, LineNo(text, i) + 1, Column(text, i), LineNo(text, j) + 1, Column(text, j))
         == Range(PositionAt(text, enc, i), PositionAt(text, enc, if i <= j then j else i))
  {
    var a, b := PositionAt(text, enc, i), PositionAt(text, enc, j);
    ShellCheckAgrees(text, enc, i);
    ShellCheckAgrees(text, enc, j);
    SourceRangeOf(text, enc, LineNo(text, i) + 1, Column(text, i), LineNo(text, j) + 1, Column(text, j), a, b);
    if i < j { PositionMonotone(text, enc, i, j); }
    if j < i { PositionMonotone(text, enc, j, i); }
  }

  /** A finding without an end covers the rune at its start. */
  lemma SourceRangeOfRune(text: ByteString, enc: Encoding, i: nat)
    requires Valid(text) && IsBoundary(text, i) && i < |text| && text[i] != NEWLINE && enc != UTF32
    ensures var j := i + Size(text[i]);
      && j <= |text|
      && SourceRange(text, enc, LineNo(text, i) + 1, Column(text, i), 0, 0)
         == Range(PositionAt(text, enc, i), PositionAt(text, enc, j))
  {
    var j := i + Size(text[i]);
    NextColumn(text, i);
    assert WellFormedAt(text, i);
    ShellCheckAgrees(text, enc, i);
    ShellCheckAgrees(text, enc, j);
    PositionMonotone(text, enc, i, j);
    SourceRangeOf(text, enc, LineNo(text, i) + 1, Column(text, i), 0, 0,
                  PositionAt(text, enc, i), PositionAt(text, enc, j));
  }

  /** Numbers below one count as one. */
  lemma ShellCheckFromOne(text: ByteString, enc: Encoding, line: int, column: int)
    ensures line <= 0 ==> ShellCheckPos(text, enc, line, column) == ShellCheckPos(text, enc, 1, column)
    ensures column <= 0 ==> ShellCheckPos(text, enc, line, column) == ShellCheckPos(text, enc, line, 1)
  {
  }

  /** Beyond the lines of the text, and beyond the runes of a line, the numbers are taken as they are. */
  lemma {:induction false} ShellCheckBeyond(text: ByteString, enc: Encoding, line: int, column: int)
    requires line > 0 && column > 0
    requires LineNo(text, |text|) < line - 1 || |Runes(Line(text, line - 1), 0)| < column - 1
    ensures ShellCheckPos(text, enc, line, column) == Position(line - 1, column - 1)
  {
    SplitCount(text, 0);
    if line - 1 <= LineNo(text, |text|) {
      SplitLine(text, line - 1);
      assert Character(Line(text, line - 1), enc, column - 1) == column - 1;
    }
  }

  /** The rune after an offset has the next column of the same line. */
  lemma NextColumn(text: ByteString, i: nat)
    requires Valid(text) && IsBoundary(text, i) && i < |text| && text[i] != NEWLINE
    ensures var j := i + Size(text[i]);
      && j <= |text| && LineNo(text, j) == LineNo(text, i) && LineBegin(text, j) == LineBegin(text, i)
      && CodePoints(text, LineBegin(text, i), j) == CodePoints(text, LineBegin(text, i), i) + 1
  {
    assert WellFormedAt(text, i);
    SameLine(text, i, i + Size(text[i]));
    LineBoundaries(text, i);
    CodePointsAdditive(text, LineBegin(text, i), i, i + Size(text[i]));
  }

  lemma {:induction false} CodePointsAdditive(s: ByteString, i: nat, j: nat, k: nat)
    requires Valid(s) && i <= j <= k <= |s| && IsBoundary(s, i) && IsBoundary(s, j)
    ensures CodePoints(s, i, k) == CodePoints(s, i, j) + CodePoints(s, j, k)
    decreases j - i
  {
    if i < j {
      NextBoundary(s, i, j);
      assert WellFormedAt(s, i);
      CodePointsAdditive(s, i + Size(s[i]), j, k);
    }
  }

  /** For any bytes of a line, under UTF-8. */
  lemma {:induction false} CharacterUtf8(l: ByteString, n: nat)
    requires n <= |Runes(l, 0)|
    ensures var (end, bad) := AfterRunes(l, 0, n); Character(l, UTF8, n) == end + 2 * bad
  {
    JoinedLength(l, 0, n);
  }

  /**
   For any bytes, under UTF-8: an answer inside the line is the byte offset of the column plus two
   for every replaced byte before it, so it is the true byte column exactly when none was replaced.
   */
  lemma {:induction false} ShellCheckUtf8Exact(text: ByteString, line: nat, l: ByteString, n: nat)
    requires line < |Split(text, 0)| && l == Split(text, 0)[line] && n <= |Runes(l, 0)|
    ensures var (end, bad) := AfterRunes(l, 0, n);
      && ShellCheckPos(text, UTF8, line + 1, n + 1) == Position(line, end + 2 * bad)
      && 0 <= LineStart(text, line) && LineStart(text, line) + end <= |text|
      && PositionAt(text, UTF8, LineStart(text, line) + end) == Position(line, end)
  {
    CharacterUtf8(l, n);
    ShellCheckOnLine(text, UTF8, line, l, n);
    assert l == Line(text, line) && line <= LineNo(text, |text|) by {
      SplitCount(text, 0);
      SplitLine(text, line);
    }
    InsideLine(text, line, AfterRunes(l, 0, n).0);
  }

  /** The offsets of a line. */
  lemma {:induction false} InsideLine(text: ByteString, line: nat, k: nat)
    requires line <= LineNo(text, |text|) && k <= |Line(text, line)|
    ensures 0 <= LineStart(text, line) && LineStart(text, line) + k <= |text|
    ensures PositionAt(text, UTF8, LineStart(text, line) + k) == Position(line, k)
  {
    var ls := LineStart(text, line);
    LineEndClear(text, ls);
    SameLine(text, ls, ls + k);
  }

  /** One stray byte: ShellCheck's second column becomes byte column 3, not 1. */
  lemma ShellCheckDiffersOnInvalid()
    ensures ShellCheckPos([0xFF], UTF8, 1, 2) == Position(0, 3)
    ensures PositionAt([0xFF], UTF8, 1) == Position(0, 1)
  {
    var s: ByteString := [0xFF];
    assert LineNo(s, 0) == 0 && LineNo(s, 1) == 0;
    LineStartUnique(s, 0);
    assert LineEnd(s, 0) == LineEnd(s, 1) == 1;
    assert s[0..1] == s;
    assert Runes(s, 0) == [REPLACEMENT] + Runes(s, 1) == [REPLACEMENT];
    assert AfterRunes(s, 0, 1) == (1, 1) by { assert AfterRunes(s, 1, 0) == (1, 0); }
    assert Split(s, 0) == [s];
    ShellCheckUtf8Exact(s, 0, s, 1);
  }
}
