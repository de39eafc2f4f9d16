/** Go strings as byte sequences, and Go's `<` on them. */
module Keys {

  /** One byte of a Go string; Go's `len` counts these. */
  newtype Byte = b: int | 0 <= b < 256

  type Bytes = seq<Byte>

  const Colon: Byte := 58    // ':'
  const Newline: Byte := 10  // '\n'

  /** A key paired with its value. */
  datatype Entry = Entry(key: Bytes, value: Bytes)

  /** Go's `a < b` on strings: unsigned byte-wise lexicographic order, a proper prefix first. */
  predicate Less(a: Bytes, b: Bytes)
  {
    if a == [] then b != []
    else if b == [] then false
    else if a[0] != b[0] then a[0] < b[0]
    else Less(a[1..], b[1..])
  }

  predicate LessEq(a: Bytes, b: Bytes)
  {
    Less(a, b) || a == b
  }

  lemma {:induction false} LessIrreflexive(a: Bytes)
    ensures !Less(a, a)
  {
    if a != [] {
      LessIrreflexive(a[1..]);
    }
  }

  lemma {:induction false} LessTransitive(a: Bytes, b: Bytes, c: Bytes)
    requires Less(a, b) && Less(b, c)
    ensures Less(a, c)
  {
    if a != [] && a[0] == b[0] && b[0] == c[0] {
      LessTransitive(a[1..], b[1..], c[1..]);
    }
  }

  lemma {:induction false} LessTrichotomy(a: Bytes, b: Bytes)
    ensures Less(a, b) || a == b || Less(b, a)
  {
    if a != [] && b != [] && a[0] == b[0] {
      LessTrichotomy(a[1..], b[1..]);
      if a[1..] == b[1..] {
        assert a == [a[0]] + a[1..] && b == [b[0]] + b[1..];
      }
    }
  }

  lemma LessAsymmetric(a: Bytes, b: Bytes)
    requires Less(a, b)
    ensures !Less(b, a) && a != b
  {
    if Less(b, a) {
      LessTransitive(a, b, a);
      LessIrreflexive(a);
    }
    if a == b {
      LessIrreflexive(a);
    }
  }

  /** `k` is not below `a`, and `a <= b`, so `k` is not below `b` either. */
  lemma NotLessMonotone(a: Bytes, b: Bytes, k: Bytes)
    requires !Less(a, k) && LessEq(a, b)
    ensures !Less(b, k)
  {
    if Less(b, k) && a != b {
      LessTransitive(a, b, k);
    }
  }
}
