/**
 Byte offsets and LSP positions: the model of internal/util/lsp/position.go.

 The specification functions describe a text by its lines; the methods are the loops of the
 program, proved equal to them; the lemmas say what the functions mean.
 */
module LspPosition {
  import opened Bytes
  import opened Utf8

  // ----- lines of a text

  /** Number of the line that offset `off` lies on: the newlines before it. */
  function LineNo(s: ByteString, off: nat): nat
    requires off <= |s|
  {
    if off == 0 then 0 else LineNo(s, off - 1) + if s[off - 1] == NEWLINE then 1 else 0
  }

  /** Offset at which the line holding `off` starts. */
  function LineBegin(s: ByteString, off: nat): (b: nat)
    requires off <= |s|
    ensures b <= off
  {
    if off == 0 || s[off - 1] == NEWLINE then off else LineBegin(s, off - 1)
  }

  /** Offset of the newline that ends the line holding `off`, or the end of the text. */
  function LineEnd(s: ByteString, off: nat): (e: nat)
    requires off <= |s|
    ensures off <= e <= |s|
    decreases |s| - off
  {
    if off == |s| || s[off] == NEWLINE then off else LineEnd(s, off + 1)
  }

  /** Start of the given line at or before `off`. */
  function StartOf(s: ByteString, line: nat, off: nat): (c: nat)
    requires off <= |s| && line <= LineNo(s, off)
    ensures c <= off && LineNo(s, c) == line && LineBegin(s, c) == c
  {
    if off > 0 && line <= LineNo(s, off - 1) then StartOf(s, line, off - 1) else off
  }

  /** Start of a line, or -1 when the text has fewer lines. */
  function LineStart(s: ByteString, line: int): (c: int)
    requires 0 <= line
    ensures c < 0 <==> LineNo(s, |s|) < line
    ensures 0 <= c ==> c <= |s| && LineNo(s, c) == line && LineBegin(s, c) == c
    ensures c < 0 ==> c == -1
  {
    if line <= LineNo(s, |s|) then StartOf(s, line, |s|) else -1
  }

  lemma {:induction false} LineNoMonotone(s: ByteString, i: nat, j: nat)
    requires i <= j <= |s|
    ensures LineNo(s, i) <= LineNo(s, j)
    decreases j
  {
    if i < j { LineNoMonotone(s, i, j - 1); }
  }

  /** A newline in between separates lines strictly. */
  lemma {:induction false} LineNoStrict(s: ByteString, i: nat, k: nat, j: nat)
    requires i <= k < j <= |s| && s[k] == NEWLINE
    ensures LineNo(s, i) < LineNo(s, j)
  {
    LineNoMonotone(s, i, k);
    LineNoMonotone(s, k + 1, j);
  }

  /** No newline lies between the start of a line and an offset on it. */
  lemma {:induction false} LineBeginClear(s: ByteString, off: nat)
    requires off <= |s|
    ensures forall k :: LineBegin(s, off) <= k < off ==> s[k] != NEWLINE
    ensures LineBegin(s, off) == 0 || s[LineBegin(s, off) - 1] == NEWLINE
    ensures LineNo(s, LineBegin(s, off)) == LineNo(s, off)
    ensures LineBegin(s, LineBegin(s, off)) == LineBegin(s, off)
  {
    if off > 0 && s[off - 1] != NEWLINE { LineBeginClear(s, off - 1); }
  }

  lemma {:induction false} LineEndClear(s: ByteString, off: nat)
    requires off <= |s|
    ensures forall k :: off <= k < LineEnd(s, off) ==> s[k] != NEWLINE
    ensures LineEnd(s, off) == |s| || s[LineEnd(s, off)] == NEWLINE
    decreases |s| - off
  {
    if off < |s| && s[off] != NEWLINE { LineEndClear(s, off + 1); }
  }

  /** Without a newline in between, two offsets share their line. */
  lemma {:induction false} SameLine(s: ByteString, i: nat, j: nat)
    requires i <= j <= |s| && forall k :: i <= k < j ==> s[k] != NEWLINE
    ensures LineNo(s, i) == LineNo(s, j) && LineBegin(s, i) == LineBegin(s, j)
    decreases j
  {
    if i < j { SameLine(s, i, j - 1); }
  }

  /** Offsets on one line have no newline between them. */
  lemma {:induction false} SameLineClear(s: ByteString, i: nat, j: nat)
    requires i <= j <= |s| && LineNo(s, i) == LineNo(s, j)
    ensures forall k :: i <= k < j ==> s[k] != NEWLINE
    ensures LineBegin(s, i) == LineBegin(s, j)
  {
    forall k | i <= k < j ensures s[k] != NEWLINE {
      if s[k] == NEWLINE { LineNoStrict(s, i, k, j); }
    }
    SameLine(s, i, j);
  }

  /** A line has one start. */
  lemma {:induction false} LineStartUnique(s: ByteString, off: nat)
    requires off <= |s|
    ensures LineStart(s, LineNo(s, off)) == LineBegin(s, off)
  {
    LineNoMonotone(s, off, |s|);
    LineBeginClear(s, off);
    var c, b := LineStart(s, LineNo(s, off)), LineBegin(s, off);
    if c <= b { SameLineClear(s, c, b); } else { SameLineClear(s, b, c); }
  }

  /** `lineStart`: the walk over the text. The current line number is returned too. */
  method FindLineStart(src: ByteString, line: int) returns (cur: int, curLine: int)
    requires 0 <= line
    ensures cur == LineStart(src, line)
    ensures curLine == if cur < 0 then LineNo(src, |src|) else line
  {
    cur, curLine := 0, 0;
    while cur < |src| && curLine < line
      invariant 0 <= cur <= |src| && curLine == LineNo(src, cur) <= line
      invariant LineBegin(src, cur) == cur || curLine < line
    {
      if src[cur] == NEWLINE {
        curLine := curLine + 1;
      }
      cur := cur + 1;
    }
    if curLine != line {
      return -1, curLine;
    }
    LineStartUnique(src, cur);
  }

  // ----- character offsets

  /** Where the walk of `OffsetForPosition` from `cur` stops when it still has `character` units to go. */
  function Advance(s: ByteString, cur: nat, character: int): (off: nat)
    ensures cur <= off
    decreases |s| - cur
  {
    if |s| <= cur || character <= 0 || s[cur] == NEWLINE then cur
    else Advance(s, cur + Size(s[cur]), character - Units(s[cur]))
  }

  /** `OffsetForPosition`, UTF-16. */
  function OffsetUtf16(s: ByteString, line: int, character: int): int {
    if line < 0 || character < 0 || LineStart(s, line) < 0 then -1
    else Advance(s, LineStart(s, line), character)
  }

  /** `OffsetForPositionBytes`, UTF-8. */
  function OffsetUtf8(s: ByteString, line: int, character: int): int {
    if line < 0 || character < 0 || LineStart(s, line) < 0 || |s| < LineStart(s, line) + character then -1
    else LineStart(s, line) + character
  }

  /** `utf8RuneInfo`: byte length and UTF-16 length of the rune at the start of `s`. */
  function RuneInfo(s: ByteString): (r: (nat, nat))
    ensures s != [] ==> r == (Size(s[0]), Units(s[0]))
  {
    if |s| == 0 then (0, 0)
    else
      var b0 := s[0];
      if b0 < 0x80 then (1, 1)
      else if b0 < 0xC0 then (1, 1)
      else if b0 < 0xE0 then (2, 1)
      else if b0 < 0xF0 then (3, 1)
      else (4, 2)
  }

  /** `UTF16Len`. */
  method Utf16Len(s: ByteString) returns (total: nat)
    ensures total == Units16(s, 0, |s|)
  {
    total := 0;
    var i := 0;
    while i < |s|
      invariant 0 <= i && total + Units16(s, i, |s|) == Units16(s, 0, |s|)
    {
      var (size, u16) := RuneInfo(s[i..]);
      if size == 0 {
        break;
      }
      i := i + size;
      total := total + u16;
    }
  }

  /** `OffsetForPosition`. */
  method OffsetForPosition(src: ByteString, line: int, character: int) returns (off: int)
    ensures off == OffsetUtf16(src, line, character)
  {
    if line < 0 || character < 0 {
      return -1;
    }
    var cur, _ := FindLineStart(src, line);
    if cur < 0 {
      return -1;
    }
    var u16 := 0;
    while cur < |src| && u16 < character
      invariant 0 <= cur
      invariant Advance(src, cur, character - u16) == OffsetUtf16(src, line, character)
      decreases |src| - cur
    {
      var b := src[cur];
      if b == NEWLINE {
        break;
      }
      if b < 0x80 {
        cur := cur + 1;
        u16 := u16 + 1;
        continue;
      }
      var (size, u16len) := RuneInfo(src[cur..]);
      cur := cur + size;
      u16 := u16 + u16len;
    }
    off := cur;
  }

  /** `OffsetForPositionBytes`. */
  method OffsetForPositionBytes(src: ByteString, line: int, character: int) returns (off: int)
    ensures off == OffsetUtf8(src, line, character)
  {
    if line < 0 || character < 0 {
      return -1;
    }
    var cur, _ := FindLineStart(src, line);
    if cur < 0 {
      return -1;
    }
    off := cur + character;
    if off > |src| {
      return -1;
    }
  }

  // ----- what the UTF-16 conversion means

  /** A line of a valid text starts and ends at rune boundaries. */
  lemma {:induction false} LineBoundaries(s: ByteString, off: nat)
    requires Valid(s) && off <= |s|
    ensures IsBoundary(s, LineBegin(s, off)) && IsBoundary(s, LineEnd(s, off))
  {
    LineBeginClear(s, off);
    LineEndClear(s, off);
    var b := LineBegin(s, off);
    if b > 0 { assert WellFormedAt(s, b - 1); }
  }

  /**
   Walking `character` units from a boundary: the result is a boundary of the same line, everything
   before it falls short of `character`, and it reaches `character` unless the line ends first.
   */
  lemma {:induction false} AdvanceIsLeast(s: ByteString, cur: nat, character: int)
    requires Valid(s) && IsBoundary(s, cur) && 0 <= character
    ensures var off := Advance(s, cur, character);
      && off <= LineEnd(s, cur) && IsBoundary(s, off)
      && (off == LineEnd(s, cur) || character <= Units16(s, cur, off))
      && forall b :: cur <= b < off && IsBoundary(s, b) ==> Units16(s, cur, b) < character
    decreases |s| - cur
  {
    if cur < |s| && character > 0 && s[cur] != NEWLINE {
      var next, rest := cur + Size(s[cur]), character - Units(s[cur]);
      assert WellFormedAt(s, cur);
      RuneWithinLine(s, cur);
      if rest <= 0 {
        assert forall b :: cur < b < next ==> !IsBoundary(s, b);
      } else {
        AdvanceIsLeast(s, next, rest);
        var off := Advance(s, next, rest);
        UnitsAdditive(s, cur, next, off);
        forall b | cur <= b < off && IsBoundary(s, b) ensures Units16(s, cur, b) < character {
          if cur < b {
            NextBoundary(s, cur, b);
            UnitsAdditive(s, cur, next, b);
          }
        }
      }
    }
  }

  lemma RuneWithinLine(s: ByteString, cur: nat)
    requires Valid(s) && IsBoundary(s, cur) && cur < |s| && s[cur] != NEWLINE
    ensures WellFormedAt(s, cur) && LineEnd(s, cur) == LineEnd(s, cur + Size(s[cur]))
  {
    assert WellFormedAt(s, cur);
    LineEndSkip(s, cur, cur + Size(s[cur]));
  }

  lemma {:induction false} LineEndSkip(s: ByteString, i: nat, j: nat)
    requires i <= j <= |s| && forall k :: i <= k < j ==> s[k] != NEWLINE
    ensures LineEnd(s, i) == LineEnd(s, j)
    decreases j - i
  {
    if i < j { LineEndSkip(s, i + 1, j); }
  }

  /**
   `OffsetForPosition` on a valid text: -1 exactly for a negative argument or a missing line, and
   otherwise the least rune boundary of the line whose UTF-16 count reaches `character`, or the line
   end when no boundary of the line does.
   */
  lemma {:induction false} OffsetUtf16IsLeastBoundary(s: ByteString, line: int, character: int)
    requires Valid(s)
    ensures OffsetUtf16(s, line, character) < 0 <==> line < 0 || character < 0 || LineNo(s, |s|) < line
    ensures var off := OffsetUtf16(s, line, character);
      0 <= off ==>
        var ls := LineStart(s, line);
        && ls <= off <= LineEnd(s, ls) && LineNo(s, off) == line && IsBoundary(s, off)
        && (off == LineEnd(s, ls) || character <= Units16(s, ls, off))
        && forall b :: ls <= b < off && IsBoundary(s, b) ==> Units16(s, ls, b) < character
  {
    var off := OffsetUtf16(s, line, character);
    if 0 <= off {
      var ls := LineStart(s, line);
      LineBoundaries(s, ls);
      AdvanceIsLeast(s, ls, character);
      LineEndClear(s, ls);
      SameLine(s, ls, off);
    }
  }

  /** The walk finds every boundary of the line again from its own unit count. */
  lemma {:induction false} AdvanceToBoundary(s: ByteString, ls: nat, off: nat)
    requires Valid(s) && IsBoundary(s, ls) && IsBoundary(s, off) && ls <= off
    requires forall k :: ls <= k < off ==> s[k] != NEWLINE
    ensures Advance(s, ls, Units16(s, ls, off)) == off
  {
    var u := Units16(s, ls, off);
    AdvanceIsLeast(s, ls, u);
    var r := Advance(s, ls, u);
    LineEndClear(s, ls);
    if r < off {
      UnitsMonotone(s, ls, r, off);
    }
  }

  // ----- the UTF-8 conversion and the end of a line

  /**
   The UTF-8 conversion does not stop at the line end as LSP 3.17, "Position", asks: it stays on the
   requested line exactly when the character is within it.
   */
  lemma {:induction false} OffsetUtf8OnLine(s: ByteString, line: int, character: int)
    requires 0 <= line <= LineNo(s, |s|) && 0 <= character
    ensures var ls := LineStart(s, line);
      (var off := OffsetUtf8(s, line, character);
       0 <= off && LineNo(s, off) == line) <==> character <= LineEnd(s, ls) - ls
  {
    var ls := LineStart(s, line);
    var off := OffsetUtf8(s, line, character);
    LineEndClear(s, ls);
    if character <= LineEnd(s, ls) - ls {
      SameLine(s, ls, off);
    } else if 0 <= off {
      LineNoStrict(s, ls, LineEnd(s, ls), off);
    }
  }

  /** "a", newline, "b": character 2 of line 0 is taken for the start of line 1 under UTF-8, clamped under UTF-16. */
  lemma OffsetUtf8DoesNotClamp()
    ensures OffsetUtf8([97, 10, 98], 0, 2) == 2 && LineNo([97, 10, 98], 2) == 1
    ensures OffsetUtf16([97, 10, 98], 0, 2) == 1
  {
    var s: ByteString := [97, 10, 98];
    assert LineNo(s, 0) == 0 && LineNo(s, 1) == 0 && LineNo(s, 2) == 1;
    LineStartUnique(s, 0);
    assert Advance(s, 0, 2) == Advance(s, 1, 1) == 1;
  }

  /** A truncated four-byte rune at the end of the text: the UTF-16 result overshoots the text by three bytes. */
  lemma OffsetUtf16Overshoots()
    ensures OffsetUtf16([0xF0], 0, 1) == 4
  {
    var s: ByteString := [0xF0];
    assert LineNo(s, 0) == 0;
    LineStartUnique(s, 0);
    assert Advance(s, 0, 1) == Advance(s, 4, -1);
  }

  /** Three bytes is the most any text can be overshot by. */
  lemma {:induction false} AdvanceOvershoot(s: ByteString, cur: nat, character: int)
    requires cur <= |s| + 3
    ensures Advance(s, cur, character) <= |s| + 3
    decreases |s| - cur
  {
    if !(|s| <= cur || character <= 0 || s[cur] == NEWLINE) {
      AdvanceOvershoot(s, cur + Size(s[cur]), character - Units(s[cur]));
    }
  }

  /** The runes from `cur` to the end of its line, each as long as its first byte says, end inside the text. */
  predicate LineTiles(s: ByteString, cur: nat)
    decreases |s| - cur
  {
    cur <= |s| && (cur == |s| || s[cur] == NEWLINE || LineTiles(s, cur + Size(s[cur])))
  }

  lemma {:induction false} AdvanceWithin(s: ByteString, cur: nat, character: int)
    requires LineTiles(s, cur)
    ensures Advance(s, cur, character) <= |s|
    decreases |s| - cur
  {
    if cur < |s| && s[cur] != NEWLINE { AdvanceWithin(s, cur + Size(s[cur]), character - Units(s[cur])); }
  }

  lemma {:induction false} AdvanceBeyond(s: ByteString, cur: nat) returns (character: nat)
    requires cur <= |s| && !LineTiles(s, cur)
    ensures Advance(s, cur, character) > |s|
    decreases |s| - cur
  {
    var next := cur + Size(s[cur]);
    if next > |s| {
      character := Units(s[cur]);
    } else {
      character := AdvanceBeyond(s, next);
      character := character + Units(s[cur]);
    }
  }

  /**
   The exact condition under which `OffsetForPosition` never leaves the text on a line: no rune of the line
   is cut short by the end of the text.
   */
  lemma {:induction false} OffsetUtf16WithinIff(s: ByteString, line: int)
    requires 0 <= line <= LineNo(s, |s|)
    ensures (forall character :: OffsetUtf16(s, line, character) <= |s|) <==> LineTiles(s, LineStart(s, line))
  {
    var ls := LineStart(s, line);
    if LineTiles(s, ls) {
      forall character ensures OffsetUtf16(s, line, character) <= |s| {
        AdvanceWithin(s, ls, character);
      }
    } else {
      var character := AdvanceBeyond(s, ls);
      assert OffsetUtf16(s, line, character) > |s|;
    }
  }

  // ----- words

  /** `isWordChar`. */
  predicate IsWordChar(b: byte) {
    || 'a' as int <= b <= 'z' as int
    || 'A' as int <= b <= 'Z' as int
    || '0' as int <= b <= '9' as int
    || b == '_' as int || b == '-' as int || b == '.' as int
  }

  /** `[start, end)` is the maximal run of word bytes around `off`. */
  predicate IsWordRun(s: ByteString, off: nat, start: nat, end: nat) {
    && start <= off < end <= |s|
    && (forall k :: start <= k < end ==> IsWordChar(s[k]))
    && (start == 0 || !IsWordChar(s[start - 1]))
    && (end == |s| || !IsWordChar(s[end]))
  }

  function WordStart(s: ByteString, off: nat): (start: nat)
    requires off <= |s|
    ensures start <= off
  {
    if off > 0 && IsWordChar(s[off - 1]) then WordStart(s, off - 1) else off
  }

  function WordEnd(s: ByteString, off: nat): (end: nat)
    requires off <= |s|
    ensures off <= end <= |s|
    decreases |s| - off
  {
    if off < |s| && IsWordChar(s[off]) then WordEnd(s, off + 1) else off
  }

  /** The word at an offset; the empty word stands for "none". */
  function WordOf(s: ByteString, off: int): ByteString {
    if off < 0 || |s| <= off || !IsWordChar(s[off]) then [] else s[WordStart(s, off)..WordEnd(s, off)]
  }

  lemma {:induction false} WordStartClear(s: ByteString, off: nat)
    requires off <= |s|
    ensures forall k :: WordStart(s, off) <= k < off ==> IsWordChar(s[k])
    ensures WordStart(s, off) == 0 || !IsWordChar(s[WordStart(s, off) - 1])
  {
    if off > 0 && IsWordChar(s[off - 1]) { WordStartClear(s, off - 1); }
  }

  lemma {:induction false} WordEndClear(s: ByteString, off: nat)
    requires off <= |s|
    ensures forall k :: off <= k < WordEnd(s, off) ==> IsWordChar(s[k])
    ensures WordEnd(s, off) == |s| || !IsWordChar(s[WordEnd(s, off)])
    decreases |s| - off
  {
    if off < |s| && IsWordChar(s[off]) { WordEndClear(s, off + 1); }
  }

  /** The word at a word byte is the maximal run of word bytes around it. */
  lemma {:induction false} WordIsRun(s: ByteString, off: nat)
    requires off < |s| && IsWordChar(s[off])
    ensures IsWordRun(s, off, WordStart(s, off), WordEnd(s, off))
  {
    WordStartClear(s, off);
    WordEndClear(s, off);
  }

  /** `WordAtOffset`. */
  method WordAtOffset(src: ByteString, off: int) returns (word: ByteString, start: nat, end: nat)
    ensures word == WordOf(src, off)
    ensures word == [] <==> off < 0 || |src| <= off || !IsWordChar(src[off])
    ensures if word == [] then start == end == 0 else IsWordRun(src, off, start, end) && word == src[start..end]
  {
    if off < 0 || off >= |src| || !IsWordChar(src[off]) {
      return [], 0, 0;
    }
    start := off;
    while start > 0 && IsWordChar(src[start - 1])
      invariant start <= off && WordStart(src, start) == WordStart(src, off)
      invariant forall k :: start <= k <= off ==> IsWordChar(src[k])
    {
      start := start - 1;
    }
    end := off;
    while end < |src| && IsWordChar(src[end])
      invariant off <= end <= |src| && WordEnd(src, end) == WordEnd(src, off)
      invariant forall k :: start <= k < end ==> IsWordChar(src[k])
    {
      end := end + 1;
    }
    word := src[start..end];
  }

  /** A hyphen, a period, a digit, a letter or an underscore. */
  predicate WordByte(b: byte) {
    45 <= b <= 46 || 48 <= b <= 57 || 65 <= b <= 90 || b == 95 || 97 <= b <= 122
  }

  /** The word at an offset, by its bytes. */
  lemma {:induction false} WordSpelled(s: ByteString, off: int)
    ensures WordOf(s, off) != [] <==> 0 <= off < |s| && WordByte(s[off])
    ensures WordOf(s, off) != [] ==> exists start: nat, end: nat ::
      && start <= off < end <= |s| && WordOf(s, off) == s[start..end]
      && (forall k :: start <= k < end ==> WordByte(s[k]))
      && (start == 0 || !WordByte(s[start - 1])) && (end == |s| || !WordByte(s[end]))
  {
    if WordOf(s, off) != [] {
      WordIsRun(s, off);
      forall k | WordStart(s, off) <= k < WordEnd(s, off) ensures WordByte(s[k]) { assert IsWordChar(s[k]); }
    }
  }

  /** The word run around an offset is unique, so a run known by other means is the one found. */
  lemma WordRunUnique(s: ByteString, off: nat, a: nat, b: nat, c: nat, d: nat)
    requires IsWordRun(s, off, a, b) && IsWordRun(s, off, c, d)
    ensures a == c && b == d
  {
  }
}
