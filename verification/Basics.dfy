/** Byte strings, nibble strings and small wrappers shared by all modules. */
module Basics {
  type Byte = b: int | 0 <= b < 256
  type Bytes = seq<Byte>
  type Nibble = n: int | 0 <= n < 16
  type HexKey = seq<Nibble>

  datatype Option<+T> = None | Some(value: T)

  /** A digest function; SHA-256 yields 32 bytes, and all that matters here is that it is never empty. */
  type Digest = h: Bytes -> Bytes | forall b :: h(b) != [] witness (b: Bytes) => [0]

  const TWO64: nat := 0x1_0000_0000_0000_0000
  type uint64 = n: nat | n < TWO64

  /** The order of byte strings: `bytes.Compare(a, b) < 0`. Go strings are byte strings too. */
  predicate Less(a: Bytes, b: Bytes) {
    b != [] && (a == [] || a[0] < b[0] || (a[0] == b[0] && Less(a[1..], b[1..])))
  }

  lemma {:induction false} LessIsTotal(a: Bytes, b: Bytes)
    ensures Less(a, b) || Less(b, a) || a == b
    ensures !(Less(a, b) && Less(b, a))
    ensures !Less(a, a)
  {
    if a != [] && b != [] && a[0] == b[0] {
      LessIsTotal(a[1..], b[1..]);
      assert a == [a[0]] + a[1..] && b == [b[0]] + b[1..];
    }
    if a != [] { LessIsTotal(a[1..], a[1..]); }
  }

  lemma {:induction false} LessTransitive(a: Bytes, b: Bytes, c: Bytes)
    requires Less(a, b) && Less(b, c)
    ensures Less(a, c)
  {
    if a != [] && a[0] == b[0] == c[0] { LessTransitive(a[1..], b[1..], c[1..]); }
  }

  lemma {:induction false} LessAfterPrefix(p: Bytes, a: Bytes, b: Bytes)
    ensures Less(p + a, p + b) <==> Less(a, b)
  {
    if p == [] {
      assert p + a == a && p + b == b;
    } else {
      assert (p + a)[1..] == p[1..] + a && (p + b)[1..] == p[1..] + b;
      LessAfterPrefix(p[1..], a, b);
    }
  }
}
