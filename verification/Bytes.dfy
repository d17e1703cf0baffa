/** Byte strings, as Go strings are, and the byte-wise order Go uses on them. */
module Bytes {

  type byte = b: int | 0 <= b < 256

  type ByteString = seq<byte>

  const NEWLINE: byte := 10

  const RETURN: byte := 13

  datatype Option<+T> = None | Some(value: T)

  /** A document URI, by its bytes. */
  datatype Uri = Uri(text: ByteString)

  /** Go's `<` on strings: lexicographic on bytes. */
  predicate Less(a: ByteString, b: ByteString) {
    if b == [] then false
    else if a == [] then true
    else if a[0] != b[0] then a[0] < b[0]
    else Less(a[1..], b[1..])
  }

  /** A proper prefix comes first; otherwise the first byte that differs decides. */
  lemma {:induction false} LessIff(a: ByteString, b: ByteString)
    ensures Less(a, b) <==> exists k :: 0 <= k <= |a| && k < |b| && a[..k] == b[..k] && (k == |a| || a[k] < b[k])
  {
    if a == [] && b != [] {
      assert a[..0] == b[..0];
    } else if b != [] && a[0] != b[0] {
      assert a[..0] == b[..0];
      forall k | 0 < k <= |a| && k < |b| ensures a[..k] != b[..k] {
        assert a[..k][0] != b[..k][0];
      }
    } else if b != [] {
      var v, w := a[1..], b[1..];
      LessIff(v, w);
      if k :| 0 <= k <= |v| && k < |w| && v[..k] == w[..k] && (k == |v| || v[k] < w[k]) {
        assert a[..k + 1] == [a[0]] + v[..k] && b[..k + 1] == [b[0]] + w[..k];
      }
      if k :| 0 <= k <= |a| && k < |b| && a[..k] == b[..k] && (k == |a| || a[k] < b[k]) {
        assert v[..k - 1] == a[..k][1..] && w[..k - 1] == b[..k][1..];
      }
    }
  }

  lemma {:induction false} LessTotal(a: ByteString, b: ByteString)
    ensures a == b || Less(a, b) || Less(b, a)
  {
    if a != [] && b != [] && a[0] == b[0] {
      LessTotal(a[1..], b[1..]);
      assert a == [a[0]] + a[1..];
      assert b == [b[0]] + b[1..];
    }
  }

  lemma {:induction false} LessAsymmetric(a: ByteString, b: ByteString)
    requires Less(a, b)
    ensures !Less(b, a) && a != b
  {
    if a != [] && a[0] == b[0] {
      LessAsymmetric(a[1..], b[1..]);
    }
  }

  lemma {:induction false} LessTransitive(a: ByteString, b: ByteString, c: ByteString)
    requires Less(a, b) && Less(b, c)
    ensures Less(a, c)
  {
    if a != [] && a[0] == b[0] && b[0] == c[0] {
      LessTransitive(a[1..], b[1..], c[1..]);
    }
  }
}
