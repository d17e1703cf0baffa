/**
 Positions as a client reads them: LSP 3.17, "Position" and "Text Documents".

 To a client a line ends at a newline, at a carriage return, or at the two together; the server knows
 the first only.  The lemmas say exactly when the two readings agree.
 */
module ClientPosition {
  import opened Bytes
  import opened Utf8
  import opened LspPosition
  import opened Positions

  // ----- the lines of a client

  /** A line of the client starts at `k > 0`. */
  predicate LineStartsAt(s: ByteString, k: nat)
    requires 0 < k <= |s|
  {
    s[k - 1] == NEWLINE || (s[k - 1] == RETURN && !(k < |s| && s[k] == NEWLINE))
  }

  function ClientLineNo(s: ByteString, off: nat): nat
    requires off <= |s|
  {
    if off == 0 then 0 else ClientLineNo(s, off - 1) + if LineStartsAt(s, off) then 1 else 0
  }

  function ClientLineBegin(s: ByteString, off: nat): (b: nat)
    requires off <= |s|
    ensures b <= off
  {
    if off == 0 || LineStartsAt(s, off) then off else ClientLineBegin(s, off - 1)
  }

  /** Nothing of the line follows: the end of the text, or a byte that ends a line. */
  predicate AtLineEnd(s: ByteString, off: nat)
    requires off <= |s|
  {
    off == |s| || s[off] == NEWLINE || s[off] == RETURN
  }

  /** Between the two bytes of one line end. */
  predicate InsideLineEnd(s: ByteString, off: nat)
    requires off <= |s|
  {
    0 < off < |s| && s[off - 1] == RETURN && s[off] == NEWLINE
  }

  /**
   The meaning of a position: `off` lies on line `p.line` of the client, `p.character` code units after
   its start, or at the end of that line if the line is shorter than that.
   */
  ghost predicate Denotes(text: ByteString, enc: Encoding, p: Position, off: int) {
    && Addressable(text, enc, off) && !InsideLineEnd(text, off)
    && ClientLineNo(text, off) == p.line
    && var units := CodeUnits(text, enc, ClientLineBegin(text, off), off);
       units == p.character || (units < p.character && AtLineEnd(text, off))
  }

  lemma {:induction false} ClientLineNoMonotone(s: ByteString, i: nat, j: nat)
    requires i <= j <= |s|
    ensures ClientLineNo(s, i) <= ClientLineNo(s, j)
    decreases j
  {
    if i < j { ClientLineNoMonotone(s, i, j - 1); }
  }

  /** Two offsets on one line have the same line start, and no line starts between them. */
  lemma {:induction false} SameClientLine(s: ByteString, i: nat, j: nat)
    requires i <= j <= |s| && ClientLineNo(s, i) == ClientLineNo(s, j)
    ensures ClientLineBegin(s, i) == ClientLineBegin(s, j)
    ensures forall k :: i < k <= j ==> !LineStartsAt(s, k)
    decreases j
  {
    if i < j {
      ClientLineNoMonotone(s, i, j - 1);
      SameClientLine(s, i, j - 1);
    }
  }

  lemma {:induction false} ClientLineBoundary(s: ByteString, off: nat)
    requires Valid(s) && off <= |s|
    ensures IsBoundary(s, ClientLineBegin(s, off))
  {
    if off > 0 {
      if LineStartsAt(s, off) {
        assert WellFormedAt(s, off - 1);
      } else {
        ClientLineBoundary(s, off - 1);
      }
    } else if s != [] {
      assert WellFormedAt(s, 0);
    }
  }

  /** A later offset of the same line lies more code units after its start, and no line end lies between. */
  lemma {:induction false} ClientUnitsGrow(text: ByteString, enc: Encoding, i: nat, j: nat)
    requires Addressable(text, enc, i) && Addressable(text, enc, j) && i < j
    requires !InsideLineEnd(text, i) && !InsideLineEnd(text, j) && ClientLineNo(text, i) == ClientLineNo(text, j)
    ensures ClientLineBegin(text, i) == ClientLineBegin(text, j) && !AtLineEnd(text, i)
    ensures CodeUnits(text, enc, ClientLineBegin(text, i), i) < CodeUnits(text, enc, ClientLineBegin(text, j), j)
  {
    SameClientLine(text, i, j);
    assert !LineStartsAt(text, i + 1);
    assert i + 2 <= j ==> !LineStartsAt(text, i + 2);
    if enc != UTF8 {
      ClientLineBoundary(text, i);
      UnitsMonotone(text, ClientLineBegin(text, i), i, j);
    }
  }

  /** A position means at most one offset. */
  lemma DenotesUnique(text: ByteString, enc: Encoding, p: Position, i: int, j: int)
    requires Denotes(text, enc, p, i) && Denotes(text, enc, p, j)
    ensures i == j
  {
    if i < j {
      ClientUnitsGrow(text, enc, i, j);
    } else if j < i {
      ClientUnitsGrow(text, enc, j, i);
    }
  }

  // ----- when client and server agree

  /** Every carriage return before the offset belongs to a line end with a newline. */
  predicate NoLoneReturn(s: ByteString, off: nat)
    requires off <= |s|
  {
    forall k {:trigger s[k]} :: 0 <= k < off && s[k] == RETURN ==> k + 1 < |s| && s[k + 1] == NEWLINE
  }

  /** The client can be told the offset. */
  predicate Readable(s: ByteString, off: nat)
    requires off <= |s|
  {
    NoLoneReturn(s, off) && !InsideLineEnd(s, off)
  }

  /**
   Up to an offset the client counts at least as many lines, and exactly as many if it sees no lone carriage
   return.
   */
  lemma {:induction false} LinesCompared(s: ByteString, off: nat)
    requires off <= |s|
    ensures LineNo(s, off) <= ClientLineNo(s, off)
    ensures NoLoneReturn(s, off) <==> LineNo(s, off) == ClientLineNo(s, off)
    ensures NoLoneReturn(s, off) ==> LineBegin(s, off) == ClientLineBegin(s, off)
  {
    if off > 0 {
      LinesCompared(s, off - 1);
      assert NoLoneReturn(s, off) <==>
        NoLoneReturn(s, off - 1) && (s[off - 1] == RETURN ==> off < |s| && s[off] == NEWLINE);
    }
  }

  /** The client reads the position of an offset as that offset exactly when the offset is readable. */
  lemma ServerPositionReadIff(text: ByteString, enc: Encoding, off: nat)
    requires Addressable(text, enc, off)
    ensures Denotes(text, enc, PositionAt(text, enc, off), off) <==> Readable(text, off)
  {
    LinesCompared(text, off);
  }

  /**
   One unit after the end of a line that carriage return and newline end.  The server counts the carriage
   return to the line; the client reads the position as the end of the line, exactly when that is readable.
   */
  lemma LineEndClamped(text: ByteString, enc: Encoding, e: nat)
    requires e + 1 < |text| && text[e] == RETURN && text[e + 1] == NEWLINE
    requires Addressable(text, enc, e) && Addressable(text, enc, e + 1)
    ensures Denotes(text, enc, PositionAt(text, enc, e + 1), e) <==> Readable(text, e)
  {
    LinesCompared(text, e);
    if enc != UTF8 {
      LineBoundaries(text, e);
      UnitsMonotone(text, LineBegin(text, e), e, e + 1);
    }
  }

  /**
   The server reads a position as the client means it exactly when no lone carriage return comes before
   and the character is within the line, or, under UTF-16, the line ends there without a carriage return.
   */
  lemma {:induction false} ClientPositionReadIff(text: ByteString, enc: Encoding, p: Position, off: nat)
    requires Denotes(text, enc, p, off)
    ensures OffsetFor(text, enc, p) == off <==>
      && NoLoneReturn(text, off)
      && (CodeUnits(text, enc, ClientLineBegin(text, off), off) == p.character
          || (enc != UTF8 && (off == |text| || text[off] == NEWLINE)))
  {
    LinesCompared(text, off);
    if NoLoneReturn(text, off) {
      ReadOnLine(text, enc, p, off);
    } else {
      LaterLine(text, enc, p, off);
    }
  }

  /** A line after that of an offset is read behind the offset, or not at all. */
  lemma {:induction false} LaterLine(text: ByteString, enc: Encoding, p: Position, off: nat)
    requires off <= |text| && LineNo(text, off) < p.line
    ensures OffsetFor(text, enc, p) != off
  {
    var ls := LineStart(text, p.line);
    if 0 <= ls <= off { LineNoMonotone(text, ls, off); }
  }

  lemma {:induction false} ReadOnLine(text: ByteString, enc: Encoding, p: Position, off: nat)
    requires Addressable(text, enc, off) && LineNo(text, off) == p.line
    requires CodeUnits(text, enc, LineBegin(text, off), off) <= p.character
    requires CodeUnits(text, enc, LineBegin(text, off), off) < p.character ==> AtLineEnd(text, off)
    ensures OffsetFor(text, enc, p) == off <==>
      CodeUnits(text, enc, LineBegin(text, off), off) == p.character
      || (enc != UTF8 && (off == |text| || text[off] == NEWLINE))
  {
    var ls, units := LineBegin(text, off), CodeUnits(text, enc, LineBegin(text, off), off);
    LineStartUnique(text, off);
    LineNoMonotone(text, off, |text|);
    if units == p.character {
      OffsetForLocated(text, enc, p, off);
    } else if enc != UTF8 {
      LineBeginClear(text, off);
      LineBoundaries(text, off);
      AdvanceIsLeast(text, ls, p.character);
      LineEndSkip(text, ls, off);
      if off < |text| && text[off] == RETURN {
        RuneWithinLine(text, off);
      } else {
        assert LineEnd(text, off) == off;
        var r := Advance(text, ls, p.character);
        if r < off { UnitsMonotone(text, ls, r, off); }
      }
    }
  }

  /**
   "a", carriage return, "b".  To the client the "b" starts line 1; the server places it on line 0, where
   the client reads it as the end of that line, and does not know a line 1.
   */
  lemma LoneReturnMisread()
    ensures var text: ByteString := [97, 13, 98];
      && Denotes(text, UTF8, Position(1, 0), 2) && OffsetFor(text, UTF8, Position(1, 0)) == -1
      && PositionAt(text, UTF8, 2) == Position(0, 2) && Denotes(text, UTF8, Position(0, 2), 1)
  {
    var text: ByteString := [97, 13, 98];
    assert ClientLineNo(text, 0) == 0 && ClientLineNo(text, 1) == 0 && ClientLineNo(text, 2) == 1;
    assert ClientLineBegin(text, 2) == 2 && ClientLineBegin(text, 1) == ClientLineBegin(text, 0) == 0;
    assert LineNo(text, 0) == LineNo(text, 1) == LineNo(text, 2) == LineNo(text, 3) == 0;
    assert LineBegin(text, 2) == LineBegin(text, 1) == LineBegin(text, 0) == 0;
  }
}
