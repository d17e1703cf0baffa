/**
 Positions as the server counts them, under the negotiated encoding: the model of
 internal/server/positions.go.

 A line ends at a newline byte and nowhere else, as everywhere in the program.  `Locates` says what a
 position means by that count; what it means to a client is the subject of `ClientPosition`.
 */
module Positions {
  import opened Bytes
  import opened Utf8
  import opened LspPosition

  /** Only the first two are ever negotiated; the third exists in the ShellCheck converter. */
  datatype Encoding = UTF16 | UTF8 | UTF32

  datatype Position = Position(line: int, character: int)

  datatype Range = Range(start: Position, end: Position)

  /** A parser position: absolute byte offset, 1-based line, 1-based byte column. */
  datatype Pos = Pos(offset: nat, line: nat, col: nat)

  /** The position a parser reports for an offset of a text. */
  function PosAt(text: ByteString, off: nat): Pos
    requires off <= |text|
  {
    Pos(off, LineNo(text, off) + 1, off - LineBegin(text, off) + 1)
  }

  /** Code units between two offsets, bytes under UTF-8 and UTF-16 units otherwise. */
  function CodeUnits(text: ByteString, enc: Encoding, i: nat, j: nat): nat
    requires i <= j <= |text|
  {
    if enc == UTF8 then j - i else Units16(text, i, j)
  }

  // ----- the conversions

  /** `offsetForPosition`. */
  function OffsetFor(text: ByteString, enc: Encoding, p: Position): int {
    if enc == UTF8 then OffsetUtf8(text, p.line, p.character) else OffsetUtf16(text, p.line, p.character)
  }

  method OffsetForPos(text: ByteString, enc: Encoding, p: Position) returns (off: int)
    ensures off == OffsetFor(text, enc, p)
  {
    if enc == UTF8 {
      off := OffsetForPositionBytes(text, p.line, p.character);
    } else {
      off := OffsetForPosition(text, p.line, p.character);
    }
  }

  /** The position of an offset that lies within the text. */
  function PositionAt(text: ByteString, enc: Encoding, off: nat): Position
    requires off <= |text|
  {
    Position(LineNo(text, off), CodeUnits(text, enc, LineBegin(text, off), off))
  }

  /** `posForOffset`: out-of-range offsets are clamped. */
  method PosForOffset(text: ByteString, enc: Encoding, offset: int) returns (p: Position)
    ensures p == PositionAt(text, enc, if offset < 0 then 0 else if |text| < offset then |text| else offset)
  {
    var off := offset;
    if off < 0 {
      off := 0;
    }
    if off > |text| {
      off := |text|;
    }
    var line, lineStart := 0, 0;
    for i := 0 to off
      invariant line == LineNo(text, i) && lineStart == LineBegin(text, i)
    {
      if text[i] == NEWLINE {
        line := line + 1;
        lineStart := i + 1;
      }
    }
    var colText := text[lineStart..off];
    if enc == UTF8 {
      return Position(line, |colText|);
    }
    var units := Utf16Len(colText);
    UnitsOfSlice(text, lineStart, 0, off);
    return Position(line, units);
  }

  /** `posToLSP`. When the text does not reach the offset the byte column is used as it is. */
  function ToLsp(text: ByteString, enc: Encoding, p: Pos): Position {
    var line := if p.line > 0 then p.line - 1 else p.line;
    var col := if p.col > 0 then p.col - 1 else p.col;
    if enc == UTF8 || p.offset - col < 0 || |text| < p.offset then Position(line, col)
    else Position(line, Units16(text, p.offset - col, p.offset))
  }

  method PosToLsp(text: ByteString, enc: Encoding, p: Pos) returns (q: Position)
    ensures q == ToLsp(text, enc, p)
  {
    var line := p.line;
    if line > 0 {
      line := line - 1;
    }
    var col := p.col;
    if col > 0 {
      col := col - 1;
    }
    if enc == UTF8 {
      return Position(line, col);
    }
    var off := p.offset;
    var start := off - col;
    if start < 0 || off > |text| {
      return Position(line, col);
    }
    var units := Utf16Len(text[start..off]);
    UnitsOfSlice(text, start, 0, off);
    return Position(line, units);
  }

  /** Under UTF-8, and for an offset beyond the text, line and byte column are taken as they are, less one. */
  lemma ToLspByColumn(text: ByteString, enc: Encoding, p: Pos)
    requires p.line > 0 && p.col > 0 && (enc == UTF8 || |text| < p.offset)
    ensures ToLsp(text, enc, p) == Position(p.line - 1, p.col - 1)
  {
  }

  /** `rangeToLSP`. */
  function RangeToLsp(text: ByteString, enc: Encoding, start: Pos, end: Pos): Range {
    Range(ToLsp(text, enc, start), ToLsp(text, enc, end))
  }

  // ----- what a position means

  /** Offsets that positions of an encoding can name: every byte under UTF-8, rune starts otherwise. */
  ghost predicate Addressable(text: ByteString, enc: Encoding, off: int) {
    0 <= off <= |text| && (enc == UTF8 || (Valid(text) && IsBoundary(text, off)))
  }

  /** By the server's count `off` lies on line `p.line`, `p.character` code units after its start. */
  ghost predicate Locates(text: ByteString, enc: Encoding, p: Position, off: int) {
    && Addressable(text, enc, off)
    && LineNo(text, off) == p.line
    && CodeUnits(text, enc, LineBegin(text, off), off) == p.character
  }

  /** A position locates at most one offset. */
  lemma LocatesUnique(text: ByteString, enc: Encoding, p: Position, i: int, j: int)
    requires Locates(text, enc, p, i) && Locates(text, enc, p, j)
    ensures i == j
  {
    if i != j {
      var lo, hi := if i < j then i else j, if i < j then j else i;
      SameLineClear(text, lo, hi);
      if enc != UTF8 {
        LineBoundaries(text, lo);
        UnitsMonotone(text, LineBegin(text, lo), lo, hi);
      }
    }
  }

  /** The server reads a position as the offset it locates, whenever it locates one. */
  lemma OffsetForLocated(text: ByteString, enc: Encoding, p: Position, off: int)
    requires Locates(text, enc, p, off)
    ensures OffsetFor(text, enc, p) == off
  {
    LineStartUnique(text, off);
    LineNoMonotone(text, off, |text|);
    LineBeginClear(text, off);
    if enc != UTF8 {
      LineBoundaries(text, off);
      AdvanceToBoundary(text, LineBegin(text, off), off);
    }
  }

  /**
   `offsetForPosition` undoes `posForOffset`: at every byte under UTF-8, at every rune start of a valid text
   otherwise.
   */
  lemma OffsetRoundTrip(text: ByteString, enc: Encoding, off: nat)
    requires Addressable(text, enc, off)
    ensures Locates(text, enc, PositionAt(text, enc, off), off)
    ensures OffsetFor(text, enc, PositionAt(text, enc, off)) == off
  {
    OffsetForLocated(text, enc, PositionAt(text, enc, off), off);
  }

  /** A position inside its line, under UTF-8. */
  predicate InLine(text: ByteString, p: Position) {
    0 <= p.line <= LineNo(text, |text|)
      && 0 <= p.character <= LineEnd(text, LineStart(text, p.line)) - LineStart(text, p.line)
  }

  /** Under UTF-8 `posForOffset` undoes `offsetForPosition` exactly on the positions inside their line. */
  lemma PositionRoundTripUtf8(text: ByteString, p: Position)
    ensures InLine(text, p) <==>
              (var off := OffsetFor(text, UTF8, p); 0 <= off <= |text| && PositionAt(text, UTF8, off) == p)
  {
    if 0 <= p.line <= LineNo(text, |text|) && 0 <= p.character {
      OffsetUtf8OnLine(text, p.line, p.character);
      var off := OffsetFor(text, UTF8, p);
      if 0 <= off && LineNo(text, off) == p.line {
        LineStartUnique(text, off);
      }
    }
  }

  /**
   Under UTF-16 `posForOffset` after `offsetForPosition` keeps the line, clamps the character to the
   length of the line, and moves a character that falls inside a surrogate pair just past the pair.
   */
  lemma {:induction false} PositionRoundTripUtf16(text: ByteString, p: Position)
    requires Valid(text) && 0 <= p.line <= LineNo(text, |text|) && 0 <= p.character
    ensures var off, ls := OffsetFor(text, UTF16, p), LineStart(text, p.line);
      && ls <= off <= LineEnd(text, ls) && Locates(text, UTF16, PositionAt(text, UTF16, off), off)
      && var q, length := PositionAt(text, UTF16, off), Units16(text, ls, LineEnd(text, ls));
      && q.line == p.line
      && (length <= p.character ==> q.character == length)
      && (p.character < length ==>
            q.character == p.character ||
            (q.character == p.character + 1 && InsideSurrogatePair(text, ls, off)))
  {
    var off, ls := OffsetFor(text, UTF16, p), LineStart(text, p.line);
    OffsetUtf16IsLeastBoundary(text, p.line, p.character);
    LineStartUnique(text, off);
    LineBoundaries(text, ls);
    UnitsAdditive(text, ls, off, LineEnd(text, ls));
    if p.character < Units16(text, ls, LineEnd(text, ls)) && p.character != Units16(text, ls, off) {
      var b := LastRune(text, ls, off);
      UnitsAdditive(text, ls, b, off);
    }
  }

  /** The rune that ends at `off` takes two UTF-16 units. */
  predicate InsideSurrogatePair(text: ByteString, ls: nat, off: nat)
    requires off <= |text|
  {
    off >= 4 + ls && Size(text[off - 4]) == 4
  }

  /** The boundary before a boundary. */
  lemma {:induction false} LastRune(text: ByteString, i: nat, off: nat) returns (b: nat)
    requires Valid(text) && IsBoundary(text, i) && IsBoundary(text, off) && i < off
    ensures i <= b < off && IsBoundary(text, b) && b + Size(text[b]) == off
    ensures Units16(text, b, off) == Units(text[b])
    decreases off - i
  {
    NextBoundary(text, i, off);
    assert WellFormedAt(text, i);
    if i + Size(text[i]) == off {
      b := i;
    } else {
      b := LastRune(text, i + Size(text[i]), off);
    }
  }

  // ----- order

  predicate Before(p: Position, q: Position) {
    p.line < q.line || (p.line == q.line && p.character < q.character)
  }

  /** Later offsets have later positions. */
  lemma PositionMonotone(text: ByteString, enc: Encoding, i: nat, j: nat)
    requires Addressable(text, enc, i) && Addressable(text, enc, j) && i < j
    ensures Before(PositionAt(text, enc, i), PositionAt(text, enc, j))
  {
    LineNoMonotone(text, i, j);
    if LineNo(text, i) == LineNo(text, j) {
      SameLineClear(text, i, j);
      if enc != UTF8 {
        LineBoundaries(text, i);
        UnitsMonotone(text, LineBegin(text, i), i, j);
      }
    }
  }

  /** Later positions name later offsets. */
  lemma OffsetMonotone(text: ByteString, enc: Encoding, p: Position, q: Position, i: int, j: int)
    requires Locates(text, enc, p, i) && Locates(text, enc, q, j)
    ensures Before(p, q) <==> i < j
  {
    if i < j { PositionMonotone(text, enc, i, j); }
    if j < i { PositionMonotone(text, enc, j, i); }
  }

  // ----- the parser's positions

  /** `posToLSP` and `posForOffset` agree on every offset of every text, valid or not. */
  lemma ConvertersAgree(text: ByteString, enc: Encoding, off: nat)
    requires off <= |text|
    ensures ToLsp(text, enc, PosAt(text, off)) == PositionAt(text, enc, off)
  {
  }

  /** A range made from two parser positions locates the offsets they came from. */
  lemma RangeLocates(text: ByteString, enc: Encoding, i: nat, j: nat)
    requires Addressable(text, enc, i) && Addressable(text, enc, j)
    ensures var r := RangeToLsp(text, enc, PosAt(text, i), PosAt(text, j));
      Locates(text, enc, r.start, i) && Locates(text, enc, r.end, j)
  {
    ConvertersAgree(text, enc, i);
    ConvertersAgree(text, enc, j);
    OffsetRoundTrip(text, enc, i);
    OffsetRoundTrip(text, enc, j);
  }
}
