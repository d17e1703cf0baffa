/** UTF-8 as the server reads it: a rune's length is taken from its first byte alone. */
module Utf8 {
  import opened Bytes

  /** Bytes and UTF-16 code units that a first byte announces (`utf8RuneInfo` on a nonempty string). */
  function Size(b: byte): (n: nat)
    ensures 1 <= n <= 4
  {
    if b < 0xC0 then 1 else if b < 0xE0 then 2 else if b < 0xF0 then 3 else 4
  }

  function Units(b: byte): (n: nat)
    ensures 1 <= n <= 2 && n <= Size(b) <= 3 * n
  {
    if b < 0xF0 then 1 else 2
  }

  /** UTF-16 code units met when walking from `i` until `j` is reached or passed. */
  function Units16(s: ByteString, i: nat, j: nat): nat
    requires j <= |s|
    decreases j - i
  {
    if i >= j then 0 else Units(s[i]) + Units16(s, i + Size(s[i]), j)
  }

  predicate IsContinuation(b: byte) {
    0x80 <= b < 0xC0
  }

  /** An offset at which a rune starts, or the end of the text. */
  predicate IsBoundary(s: ByteString, i: int) {
    0 <= i <= |s| && (i < |s| ==> !IsContinuation(s[i]))
  }

  /** A well-formed UTF-8 sequence starts at `i` (RFC 3629, section 4). */
  predicate WellFormedAt(s: ByteString, i: nat)
    requires i < |s|
  {
    var b := s[i];
    && i + Size(b) <= |s|
    && (b < 0x80 || 0xC2 <= b < 0xF5)
    && (forall k :: i < k < i + Size(b) ==> IsContinuation(s[k]))
    && (b == 0xE0 ==> 0xA0 <= s[i + 1])
    && (b == 0xED ==> s[i + 1] < 0xA0)
    && (b == 0xF0 ==> 0x90 <= s[i + 1])
    && (b == 0xF4 ==> s[i + 1] < 0x90)
  }

  /** Every rune of the text is well formed and the runes tile it. */
  predicate Valid(s: ByteString) {
    && IsBoundary(s, 0)
    && forall i {:trigger WellFormedAt(s, i)} :: 0 <= i < |s| && IsBoundary(s, i) ==>
         WellFormedAt(s, i) && IsBoundary(s, i + Size(s[i]))
  }

  /** The rune after a boundary ends at the very next boundary. */
  lemma NextBoundary(s: ByteString, i: nat, k: nat)
    requires Valid(s) && i < k && IsBoundary(s, i) && IsBoundary(s, k)
    ensures i + Size(s[i]) <= k
  {
    assert WellFormedAt(s, i);
  }

  /** A slice of a valid text between boundaries is valid, and its inner boundaries are those of the text. */
  lemma SliceValid(s: ByteString, a: nat, b: nat)
    requires Valid(s) && a <= b <= |s| && IsBoundary(s, a) && IsBoundary(s, b)
    ensures Valid(s[a..b])
  {
    var t := s[a..b];
    forall i | 0 <= i < |t| && IsBoundary(t, i)
      ensures WellFormedAt(t, i) && IsBoundary(t, i + Size(t[i]))
    {
      assert WellFormedAt(s, a + i);
      NextBoundary(s, a + i, b);
    }
  }

  /** Counting units is additive at a boundary. */
  lemma {:induction false} UnitsAdditive(s: ByteString, i: nat, j: nat, k: nat)
    requires Valid(s) && i <= j <= k <= |s| && IsBoundary(s, i) && IsBoundary(s, j)
    ensures Units16(s, i, k) == Units16(s, i, j) + Units16(s, j, k)
    decreases j - i
  {
    if i < j {
      NextBoundary(s, i, j);
      assert WellFormedAt(s, i);
      UnitsAdditive(s, i + Size(s[i]), j, k);
    }
  }

  /** The unit count grows strictly from one boundary to the next. */
  lemma {:induction false} UnitsMonotone(s: ByteString, i: nat, j: nat, k: nat)
    requires Valid(s) && i <= j < k <= |s|
    requires IsBoundary(s, i) && IsBoundary(s, j) && IsBoundary(s, k)
    ensures Units16(s, i, j) < Units16(s, i, k)
  {
    UnitsAdditive(s, i, j, k);
  }

  /** Between boundaries a text is at least as long, and at most three times as long, in bytes as in UTF-16 units. */
  lemma {:induction false} UnitsBounds(s: ByteString, i: nat, j: nat)
    requires Valid(s) && i <= j <= |s| && IsBoundary(s, i) && IsBoundary(s, j)
    ensures Units16(s, i, j) <= j - i <= 3 * Units16(s, i, j)
    decreases j - i
  {
    if i < j {
      NextBoundary(s, i, j);
      assert WellFormedAt(s, i);
      UnitsBounds(s, i + Size(s[i]), j);
    }
  }

  /** Only the bytes between the two offsets matter, for any bytes. */
  lemma {:induction false} UnitsOfSlice(s: ByteString, a: nat, i: nat, b: nat)
    requires a <= b <= |s|
    ensures Units16(s[a..b], i, b - a) == Units16(s, a + i, b)
    decreases b - a - i
  {
    if a + i < b {
      UnitsOfSlice(s, a, i + Size(s[a + i]), b);
    }
  }

  // ----- encoded characters

  /** A Unicode scalar value. */
  predicate Scalar(c: int) {
    0 <= c < 0xD800 || 0xE000 <= c < 0x110000
  }

  /** Its bytes (RFC 3629, section 3). */
  function Encoded(c: int): ByteString
    requires Scalar(c)
  {
    if c < 0x80 then [c]
    else if c < 0x800 then [0xC0 + c / 64, 0x80 + c % 64]
    else if c < 0x10000 then [0xE0 + c / 64 / 64, 0x80 + c / 64 % 64, 0x80 + c % 64]
    else [0xF0 + c / 64 / 64 / 64, 0x80 + c / 64 / 64 % 64, 0x80 + c / 64 % 64, 0x80 + c % 64]
  }

  predicate EncodedAt(s: ByteString, i: nat, c: int)
    requires i <= |s|
  {
    Scalar(c) && Encoded(c) <= s[i..]
  }

  /** One continuation byte more. */
  function Joined(x: int, b: byte): (c: int)
    requires 0 <= x && IsContinuation(b)
    ensures c / 64 == x && c % 64 == b - 0x80
  {
    64 * x + (b - 0x80)
  }

  /** The scalar value that a well-formed sequence encodes. */
  lemma DecodeWellFormed(s: ByteString, i: nat) returns (c: int)
    requires i < |s| && WellFormedAt(s, i)
    ensures EncodedAt(s, i, c)
  {
    var n := Size(s[i]);
    var t := s[i..i + n];
    assert t <= s[i..];
    assert forall k :: 1 <= k < n ==> t[k] == s[i + k];
    assert t[0] == s[i];
    if n == 1 {
      c := t[0];
    } else if n == 2 {
      c := Joined(t[0] - 0xC0, t[1]);
    } else if n == 3 {
      c := Joined(Joined(t[0] - 0xE0, t[1]), t[2]);
    } else {
      c := Joined(Joined(Joined(t[0] - 0xF0, t[1]), t[2]), t[3]);
    }
    assert Encoded(c) == t;
  }

  /** An encoded scalar value is well formed, and its first byte tells its bytes and its UTF-16 units. */
  lemma EncodedIsWellFormed(s: ByteString, i: nat, c: int)
    requires i < |s| && EncodedAt(s, i, c)
    ensures WellFormedAt(s, i) && Size(s[i]) == |Encoded(c)| && Units(s[i]) == if c < 0x10000 then 1 else 2
  {
    var t := Encoded(c);
    assert s[i..][..|t|] == t;
    assert forall k :: 0 <= k < |t| ==> t[k] == s[i + k];
  }

  /** The well-formed sequences are exactly the encoded scalar values. */
  lemma WellFormedIffEncoded(s: ByteString, i: nat)
    requires i < |s|
    ensures WellFormedAt(s, i) <==> exists c :: EncodedAt(s, i, c)
  {
    if WellFormedAt(s, i) { var c := DecodeWellFormed(s, i); }
    if c :| EncodedAt(s, i, c) { EncodedIsWellFormed(s, i, c); }
  }
}
