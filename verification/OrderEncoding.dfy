/** Order-preserving encodings of integers: the strings of the state index and the bytes of the block index. */
module OrderEncoding {
  import opened Basics

  const MIN_INT64: int := -0x8000_0000_0000_0000
  type int64 = n: int | MIN_INT64 <= n < -MIN_INT64

  /** `n >> 8 * k`. */
  function Shr8(n: nat, k: nat): nat {
    if k == 0 then n else Shr8(n / 256, k - 1)
  }

  /** How many bytes `n` needs. */
  function Size(n: nat): nat {
    if n == 0 then 0 else 1 + Size(n / 256)
  }

  /** The low `k` bytes of `n`, most significant first. */
  function Tail(n: nat, k: nat): (bs: Bytes)
    ensures |bs| == k
  {
    if k == 0 then [] else Tail(n / 256, k - 1) + [n % 256]
  }

  function Number(bs: Bytes): nat {
    if bs == [] then 0 else 256 * Number(bs[..|bs| - 1]) + bs[|bs| - 1]
  }

  function Ones(k: nat): nat {
    if k == 0 then 0 else 256 * Ones(k - 1) + 255
  }

  lemma {:induction false} SizeBound(n: nat, k: nat)
    ensures Size(n) <= k <==> n <= Ones(k)
  {
    if k > 0 && n > 0 { SizeBound(n / 256, k - 1); }
  }

  lemma OnesOfWord()
    ensures Ones(8) == TWO64 - 1
  {
    assert Ones(4) == 0xffff_ffff;
    assert Ones(6) == 0xffff_ffff_ffff;
  }

  lemma WordSize(n: uint64)
    ensures Size(n) <= 8
  {
    SizeBound(n, 8);
    OnesOfWord();
  }

  lemma {:induction false} ShrIsZero(n: nat, k: nat)
    ensures Shr8(n, k) == 0 <==> Size(n) <= k
  {
    if k > 0 { ShrIsZero(n / 256, k - 1); }
  }

  lemma {:induction false} TailAt(n: nat, k: nat, i: nat)
    requires i < k
    ensures Tail(n, k)[i] == Shr8(n, k - 1 - i) % 256
  {
    if i < k - 1 { TailAt(n / 256, k - 1, i); }
  }

  lemma {:induction false} ShrStep(n: nat, k: nat)
    ensures Shr8(n, k) / 256 == Shr8(n, k + 1)
  {
    if k > 0 { ShrStep(n / 256, k - 1); }
  }

  lemma {:induction false} NumberOfTail(n: nat, k: nat)
    requires Size(n) <= k
    ensures Number(Tail(n, k)) == n
  {
    if k > 0 {
      NumberOfTail(n / 256, k - 1);
      assert Tail(n, k)[..k - 1] == Tail(n / 256, k - 1);
    }
  }

  lemma {:induction false} LessSnoc(x: Bytes, c: Byte, y: Bytes, d: Byte)
    requires |x| == |y|
    ensures Less(x + [c], y + [d]) <==> Less(x, y) || (x == y && c < d)
  {
    if x == [] {
      assert x + [c] == [c] && y + [d] == [d];
    } else {
      assert (x + [c])[1..] == x[1..] + [c] && (y + [d])[1..] == y[1..] + [d];
      LessSnoc(x[1..], c, y[1..], d);
      assert x == [x[0]] + x[1..] && y == [y[0]] + y[1..];
    }
  }

  /** Among numbers that fit, the byte order of the tails is the order of the numbers. */
  lemma ByteOrder(a: nat, b: nat)
    ensures a < b <==> a / 256 < b / 256 || (a / 256 == b / 256 && a % 256 < b % 256)
    ensures a == b <==> a / 256 == b / 256 && a % 256 == b % 256
  {
    assert a == 256 * (a / 256) + a % 256 && b == 256 * (b / 256) + b % 256;
  }

  lemma {:induction false} TailOrder(a: nat, b: nat, k: nat)
    requires Size(a) <= k && Size(b) <= k
    ensures Less(Tail(a, k), Tail(b, k)) <==> a < b
    ensures Tail(a, k) == Tail(b, k) <==> a == b
  {
    NumberOfTail(a, k);
    NumberOfTail(b, k);
    if k > 0 {
      TailOrder(a / 256, b / 256, k - 1);
      ByteOrder(a, b);
      LessSnoc(Tail(a / 256, k - 1), a % 256, Tail(b / 256, k - 1), b % 256);
    }
  }

  lemma {:induction false} SizeMonotone(a: nat, b: nat)
    requires a <= b
    ensures Size(a) <= Size(b)
  {
    if a > 0 { SizeMonotone(a / 256, b / 256); }
  }

  /** The block-number key: the number of bytes, then the bytes. */
  function BlockKey(n: uint64): (bs: Bytes)
  {
    WordSize(n);
    [Size(n)] + Tail(n, Size(n))
  }

  lemma BlockKeyOrder(a: uint64, b: uint64)
    ensures Less(BlockKey(a), BlockKey(b)) <==> a < b
    ensures BlockKey(a) <= BlockKey(b) ==> a == b
  {
    WordSize(a);
    WordSize(b);
    assert BlockKey(a)[1..] == Tail(a, Size(a)) && BlockKey(b)[1..] == Tail(b, Size(b));
    if a <= b { SizeMonotone(a, b); } else { SizeMonotone(b, a); }
    if Size(a) == Size(b) { TailOrder(a, b, Size(a)); }
    if BlockKey(a) <= BlockKey(b) { assert BlockKey(a)[0] == BlockKey(b)[0]; }
  }

  /** The last key of the block index, in byte order, is that of the highest block. */
  lemma LastKeyIsHighest(numbers: set<uint64>, last: uint64)
    requires last in numbers && forall n :: n in numbers && n != last ==> Less(BlockKey(n), BlockKey(last))
    ensures forall n :: n in numbers ==> n <= last
  {
    forall n | n in numbers ensures n <= last {
      BlockKeyOrder(n, last);
    }
  }

  lemma {:induction false} TailDrop(n: nat, k: nat, j: nat)
    requires j <= k
    ensures Tail(n, k)[k - j..] == Tail(n, j)
  {
    if j > 0 {
      TailDrop(n / 256, k - 1, j - 1);
      var t := Tail(n / 256, k - 1);
      assert (t + [n % 256])[k - j..] == t[k - j..] + [n % 256];
    }
  }

  /** One more leading zero byte, or the first byte that is not zero. */
  lemma LeadingZero(n: nat, i: nat)
    requires i < 8 && Size(n) <= 8 - i
    ensures Tail(n, 8)[i] == 0 ==> Size(n) <= 7 - i
    ensures Tail(n, 8)[i] != 0 ==> Size(n) == 8 - i
  {
    TailAt(n, 8, i);
    ShrIsZero(n, 7 - i);
    ShrIsZero(n, 8 - i);
    ShrStep(n, 7 - i);
  }

  method EncodeBlockNumber(number: uint64) returns (encoded: Bytes)
    ensures encoded == BlockKey(number)
  {
    WordSize(number);
    var bytes := Tail(number, 8);
    var startingIndex, size := 0, 0;
    var i := 0;
    while i < 8
      invariant 0 <= i <= 8 && Size(number) <= 8 - i && startingIndex == 0 && size == 0
    {
      LeadingZero(number, i);
      if bytes[i] != 0 {
        startingIndex, size := i, 8 - i;
        break;
      }
      i := i + 1;
    }
    TailDrop(number, 8, size);
    encoded := [size] + if size == 0 then [] else bytes[startingIndex..];
  }

  /** A one-byte varint with the size, then that many bytes; anything else is an error. */
  method DecodeBlockNumber(bytes: Bytes) returns (r: Option<(nat, nat)>)
    ensures r.Some? <==> bytes != [] && bytes[0] <= 8 && bytes[0] <= |bytes| - 1
    ensures r.Some? ==> r.value == (Number(bytes[1..bytes[0] + 1]), bytes[0] + 1)
  {
    if |bytes| == 0 || bytes[0] >= 128 {
      return None;
    }
    var size := bytes[0];
    if size > 8 || size > |bytes| - 1 {
      return None;
    }
    r := Some((Number(bytes[1..size + 1]), size + 1));
  }

  /** A block key, alone or at the head of a longer key, is decoded to its number. */
  lemma BlockKeyRoundTrip(n: uint64, rest: Bytes)
    ensures var bs := BlockKey(n) + rest;
      bs[0] <= 8 && bs[0] <= |bs| - 1 && Number(bs[1..bs[0] + 1]) == n && bs[bs[0] + 1..] == rest
  {
    WordSize(n);
    NumberOfTail(n, Size(n));
    var bs := BlockKey(n) + rest;
    assert bs[1..Size(n) + 1] == Tail(n, Size(n));
  }

  /** `hextable` and its inverse `fromHexChar`, which also takes capital letters. */
  function HexChar(d: int): Byte
    requires 0 <= d < 16
  {
    if d < 10 then 48 + d else 87 + d
  }

  function FromHexChar(c: Byte): Option<int> {
    if 48 <= c <= 57 then Some(c - 48)
    else if 97 <= c <= 102 then Some(c - 87)
    else if 65 <= c <= 70 then Some(c - 55)
    else None
  }

  /** Digits are written in small letters, and read in small or capital ones. */
  lemma HexDigits(d: int, c: Byte)
    requires 0 <= d < 16
    ensures HexChar(d) == "0123456789abcdef"[d] as int
    ensures FromHexChar(c) == Some(d) <==> c == "0123456789abcdef"[d] as int || c == "0123456789ABCDEF"[d] as int
  {
  }

  function HexOf(bs: Bytes): (s: Bytes)
    ensures |s| == 2 * |bs|
  {
    if bs == [] then [] else [HexChar(bs[0] / 16), HexChar(bs[0] % 16)] + HexOf(bs[1..])
  }

  function Complement(bs: Bytes): (r: Bytes)
    ensures |r| == |bs| && forall i :: 0 <= i < |bs| ==> r[i] == 255 - bs[i]
  {
    seq(|bs|, i requires 0 <= i < |bs| => 255 - bs[i])
  }

  lemma HexPair(b: Byte, c: Byte, x: Bytes, y: Bytes)
    ensures Less([HexChar(b / 16), HexChar(b % 16)] + x, [HexChar(c / 16), HexChar(c % 16)] + y)
      <==> b < c || (b == c && Less(x, y))
  {
    var s, t := [HexChar(b / 16), HexChar(b % 16)] + x, [HexChar(c / 16), HexChar(c % 16)] + y;
    assert s[1..] == [HexChar(b % 16)] + x && t[1..] == [HexChar(c % 16)] + y;
    assert s[1..][1..] == x && t[1..][1..] == y;
  }

  lemma {:induction false} HexOrder(x: Bytes, y: Bytes)
    requires |x| == |y|
    ensures Less(HexOf(x), HexOf(y)) <==> Less(x, y)
  {
    if x != [] {
      HexOrder(x[1..], y[1..]);
      HexPair(x[0], y[0], HexOf(x[1..]), HexOf(y[1..]));
    }
  }

  lemma {:induction false} ComplementOrder(x: Bytes, y: Bytes)
    requires |x| == |y|
    ensures Less(Complement(x), Complement(y)) <==> Less(y, x)
  {
    if x != [] {
      ComplementOrder(x[1..], y[1..]);
      assert Complement(x)[1..] == Complement(x[1..]) && Complement(y)[1..] == Complement(y[1..]);
    }
  }

  lemma {:induction false} ComplementOfTail(n: nat, k: nat, j: nat)
    requires k <= j && n <= Ones(j)
    ensures Tail(Ones(j) - n, k) == Complement(Tail(n, k))
  {
    if k > 0 {
      ComplementOfTail(n / 256, k - 1, j - 1);
      assert (Ones(j) - n) / 256 == Ones(j - 1) - n / 256 && (Ones(j) - n) % 256 == 255 - n % 256;
    }
  }

  const NORMAL_ORDER: Byte := 49
  const REVERSE_ORDER: Byte := 48

  function Normal(n: uint64): Bytes {
    WordSize(n);
    [NORMAL_ORDER, HexChar(Size(n))] + HexOf(Tail(n, Size(n)))
  }

  /** Trimmed bytes are counted instead of kept ones, and the kept bytes are complemented. */
  function Reverse(n: uint64): Bytes {
    WordSize(n);
    [REVERSE_ORDER, HexChar(8 - Size(n))] + HexOf(Complement(Tail(n, Size(n))))
  }

  function EncodeInt64(n: int64): Bytes {
    if n < 0 then Reverse(0 - n) else Normal(n)
  }

  lemma HeadOrder(c: Byte, i: int, x: Bytes, j: int, y: Bytes)
    requires 0 <= i < 10 && 0 <= j < 10
    ensures Less([c, HexChar(i)] + x, [c, HexChar(j)] + y) <==> i < j || (i == j && Less(x, y))
  {
    var s, t := [c, HexChar(i)] + x, [c, HexChar(j)] + y;
    assert s[1..] == [HexChar(i)] + x && t[1..] == [HexChar(j)] + y;
    assert s[1..][1..] == x && t[1..][1..] == y;
  }

  lemma NormalOrder(a: uint64, b: uint64)
    ensures Less(Normal(a), Normal(b)) <==> a < b
  {
    WordSize(a);
    WordSize(b);
    HeadOrder(NORMAL_ORDER, Size(a), HexOf(Tail(a, Size(a))), Size(b), HexOf(Tail(b, Size(b))));
    if a <= b { SizeMonotone(a, b); } else { SizeMonotone(b, a); }
    if Size(a) == Size(b) {
      TailOrder(a, b, Size(a));
      HexOrder(Tail(a, Size(a)), Tail(b, Size(b)));
    }
  }

  lemma ReverseOrder(a: uint64, b: uint64)
    ensures Less(Reverse(a), Reverse(b)) <==> b < a
  {
    WordSize(a);
    WordSize(b);
    var ca, cb := Complement(Tail(a, Size(a))), Complement(Tail(b, Size(b)));
    HeadOrder(REVERSE_ORDER, 8 - Size(a), HexOf(ca), 8 - Size(b), HexOf(cb));
    if a <= b { SizeMonotone(a, b); } else { SizeMonotone(b, a); }
    if Size(a) == Size(b) {
      TailOrder(b, a, Size(a));
      ComplementOrder(Tail(a, Size(a)), Tail(b, Size(b)));
      HexOrder(ca, cb);
    }
  }

  lemma EncodedLength(n: int64)
    ensures var s := EncodeInt64(n);
      && |s| >= 2 && (s[0] == NORMAL_ORDER <==> n >= 0) && (s[0] == REVERSE_ORDER <==> n < 0)
      && var c: int := s[1]; |s| == 2 + 2 * (if n < 0 then 56 - c else c - 48)
  {
    WordSize(if n < 0 then 0 - n else n);
  }

  lemma EncodeLess(a: int64, b: int64)
    ensures Less(EncodeInt64(a), EncodeInt64(b)) <==> a < b
  {
    if a < 0 && b < 0 {
      ReverseOrder(0 - a, 0 - b);
    } else if a >= 0 && b >= 0 {
      NormalOrder(a, b);
    } else {
      EncodedLength(a);
      EncodedLength(b);
    }
  }

  lemma SameLength(s: Bytes, t: Bytes)
    requires s <= t && |s| == |t|
    ensures s == t
  {
  }

  /** The string order of the encodings is the order of the integers, and no encoding is a prefix of another. */
  lemma EncodeInt64Order(a: int64, b: int64)
    ensures Less(EncodeInt64(a), EncodeInt64(b)) <==> a < b
    ensures EncodeInt64(a) <= EncodeInt64(b) <==> a == b
  {
    EncodeLess(a, b);
    EncodeLess(b, a);
    EncodedLength(a);
    EncodedLength(b);
    var s, t := EncodeInt64(a), EncodeInt64(b);
    LessIsTotal(s, t);
    if s <= t {
      assert s[0] == t[0] && s[1] == t[1];
      SameLength(s, t);
    }
  }

  /** The byte of `n` at a position counted from the most significant one. */
  function ByteAt(n: uint64, position: nat): Byte
    requires position < 8
  {
    Shr8(n, 7 - position) % 256
  }

  lemma TailByte(n: uint64, i: nat)
    requires i < 8
    ensures Tail(n, 8)[i] == ByteAt(n, i)
  {
    TailAt(n, 8, i);
  }

  method LeadingBytes(n: uint64, filler: Byte) returns (bytePosition: nat)
    ensures bytePosition <= 8 && (forall i :: 0 <= i < bytePosition ==> ByteAt(n, i) == filler)
    ensures bytePosition < 8 ==> ByteAt(n, bytePosition) != filler
  {
    bytePosition := 0;
    while bytePosition <= 7
      invariant bytePosition <= 8 && forall i :: 0 <= i < bytePosition ==> ByteAt(n, i) == filler
    {
      if ByteAt(n, bytePosition) != filler {
        break;
      }
      bytePosition := bytePosition + 1;
    }
  }

  lemma {:induction false} HexAppend(bs: Bytes, b: Byte)
    ensures HexOf(bs + [b]) == HexOf(bs) + [HexChar(b / 16), HexChar(b % 16)]
  {
    if bs == [] {
      assert bs + [b] == [b] && [b][1..] == [];
    } else {
      assert (bs + [b])[1..] == bs[1..] + [b];
      HexAppend(bs[1..], b);
    }
  }

  lemma SliceSnoc(bs: Bytes, from: nat, to: nat)
    requires from <= to < |bs|
    ensures bs[from..to + 1] == bs[from..to] + [bs[to]]
  {
  }

  /** The bytes of `n` from a position on, in hexadecimal after a two-character head. */
  method FillHex(n: uint64, bytePosition: nat, head: Bytes) returns (encoded: Bytes)
    requires bytePosition <= 8
    ensures encoded == head + HexOf(Tail(n, 8 - bytePosition))
  {
    encoded := head;
    ghost var tail := Tail(n, 8);
    for r := bytePosition to 8
      invariant encoded == head + HexOf(tail[bytePosition..r])
    {
      var b := ByteAt(n, r);
      TailByte(n, r);
      HexAppend(tail[bytePosition..r], b);
      SliceSnoc(tail, bytePosition, r);
      encoded := encoded + [HexChar(b / 16), HexChar(b % 16)];
    }
    assert tail[bytePosition..8] == tail[bytePosition..];
    TailDrop(n, 8, 8 - bytePosition);
  }

  lemma {:induction false} LeadingZeros(n: uint64, p: nat)
    requires p <= 8 && forall i :: 0 <= i < p ==> ByteAt(n, i) == 0
    ensures Size(n) <= 8 - p
  {
    WordSize(n);
    if p > 0 {
      LeadingZeros(n, p - 1);
      TailByte(n, p - 1);
      LeadingZero(n, p - 1);
    }
  }

  lemma ExactSize(n: uint64, p: nat)
    requires p <= 8 && (forall i :: 0 <= i < p ==> ByteAt(n, i) == 0) && (p < 8 ==> ByteAt(n, p) != 0)
    ensures Size(n) == 8 - p
  {
    LeadingZeros(n, p);
    if p < 8 { TailByte(n, p); LeadingZero(n, p); }
  }

  method EncodeOrderPreservingVarUint64(n: uint64) returns (encoded: Bytes)
    ensures encoded == Normal(n)
  {
    var bytePosition := LeadingBytes(n, 0);
    ExactSize(n, bytePosition);
    encoded := FillHex(n, bytePosition, [NORMAL_ORDER, HexChar(8 - bytePosition)]);
  }

  lemma ComplementWord(n: uint64, i: nat)
    requires i < 8
    ensures ByteAt(TWO64 - 1 - n, i) == 255 - ByteAt(n, i)
  {
    OnesOfWord();
    ComplementOfTail(n, 8, 8);
    TailByte(n, i);
    TailByte(TWO64 - 1 - n, i);
  }

  method EncodeReverseOrderVarUint64(n: uint64) returns (encoded: Bytes)
    ensures encoded == Reverse(n)
  {
    var m: uint64 := TWO64 - 1 - n;
    var bytePosition := LeadingBytes(m, 255);
    forall i | 0 <= i < 8 ensures ByteAt(m, i) == 255 - ByteAt(n, i) { ComplementWord(n, i); }
    ExactSize(n, bytePosition);
    OnesOfWord();
    ComplementOfTail(n, 8 - bytePosition, 8);
    encoded := FillHex(m, bytePosition, [REVERSE_ORDER, HexChar(bytePosition)]);
  }

  function ToInt64(u: uint64): int64 { if u < -MIN_INT64 then u else u - TWO64 }

  /** Negation of a 64-bit integer; the minimum is its own negation. */
  function Negate64(n: int64): int64 { if n == MIN_INT64 then n else 0 - n }

  function HexAt(s: Bytes, location: nat): Option<Byte>
    requires location + 1 < |s|
  {
    var a, b := FromHexChar(s[location]), FromHexChar(s[location + 1]);
    if a.None? || b.None? then None else Some(16 * a.value + b.value)
  }

  lemma {:induction false} HexOfAt(bs: Bytes, i: nat)
    requires i < |bs|
    ensures HexOf(bs)[2 * i] == HexChar(bs[i] / 16) && HexOf(bs)[2 * i + 1] == HexChar(bs[i] % 16)
  {
    if i > 0 { HexOfAt(bs[1..], i - 1); }
  }

  /** `b << 8 * k`, before the word cuts it off. */
  function Shl8(b: Byte, k: nat): nat { if k == 0 then b else 256 * Shl8(b, k - 1) }

  lemma {:induction false} NumberPrepend(b: Byte, bs: Bytes)
    ensures Number([b] + bs) == Shl8(b, |bs|) + Number(bs)
  {
    if bs == [] {
      assert ([b] + bs)[..0] == [];
    } else {
      assert ([b] + bs)[..|bs|] == [b] + bs[..|bs| - 1];
      NumberPrepend(b, bs[..|bs| - 1]);
    }
  }

  /** The number written by the last `k` of `size` hexadecimal bytes after the head. */
  function Read(s: Bytes, size: nat, k: nat): Option<nat>
    requires |s| >= 2 + 2 * size && k <= size
  {
    if k == 0 then Some(0)
    else
      var low, b := Read(s, size, k - 1), HexAt(s, (size - (k - 1)) * 2);
      if low.None? || b.None? then None else Some(low.value + Shl8(b.value, k - 1))
  }

  lemma HexAtOf(head: Bytes, bs: Bytes, i: nat)
    requires |head| == 2 && i < |bs|
    ensures HexAt(head + HexOf(bs), 2 * i + 2) == Some(bs[i])
  {
    HexOfAt(bs, i);
    HexAtIn(head, HexOf(bs), i, bs[i]);
  }

  lemma HexAtIn(head: Bytes, hex: Bytes, i: nat, b: Byte)
    requires |head| == 2 && 2 * i + 1 < |hex| && hex[2 * i] == HexChar(b / 16) && hex[2 * i + 1] == HexChar(b % 16)
    ensures HexAt(head + hex, 2 * i + 2) == Some(b)
  {
    var s := head + hex;
    assert s[2 * i + 2] == hex[2 * i] && s[2 * i + 3] == hex[2 * i + 1];
    FromHexOfHex(b / 16);
    FromHexOfHex(b % 16);
  }

  lemma FromHexOfHex(d: int)
    requires 0 <= d < 16
    ensures FromHexChar(HexChar(d)) == Some(d)
  {
  }

  lemma ReadStep(s: Bytes, size: nat, k: nat, low: nat, b: Byte)
    requires |s| >= 2 + 2 * size && k < size
    requires Read(s, size, k) == Some(low) && HexAt(s, 2 * (size - k - 1) + 2) == Some(b)
    ensures Read(s, size, k + 1) == Some(low + Shl8(b, k))
  {
    assert (size - k) * 2 == 2 * (size - k - 1) + 2;
  }

  /** The number written by the bytes from position `i` on. */
  function NumberFrom(bs: Bytes, i: nat): nat
    requires i <= |bs|
    decreases |bs| - i
  {
    if i == |bs| then 0 else NumberFrom(bs, i + 1) + Shl8(bs[i], |bs| - i - 1)
  }

  lemma {:induction false} NumberOfSuffix(bs: Bytes, i: nat)
    requires i <= |bs|
    ensures Number(bs[i..]) == NumberFrom(bs, i)
    decreases |bs| - i
  {
    if i < |bs| {
      NumberOfSuffix(bs, i + 1);
      assert bs[i..] == [bs[i]] + bs[i + 1..];
      NumberPrepend(bs[i], bs[i + 1..]);
    }
  }

  lemma {:induction false} ReadOfHex(head: Bytes, bs: Bytes, i: nat)
    requires |head| == 2 && i <= |bs|
    ensures Read(head + HexOf(bs), |bs|, |bs| - i) == Some(NumberFrom(bs, i))
    decreases |bs| - i
  {
    if i < |bs| {
      ReadOfHex(head, bs, i + 1);
      HexAtOf(head, bs, i);
      ReadStep(head + HexOf(bs), |bs|, |bs| - i - 1, NumberFrom(bs, i + 1), bs[i]);
    }
  }

  function AtMost8(k: nat): nat { if k <= 8 then k else 8 }

  /**
   * The decoding loop: bytes are read from the last one to the first and shifted into place. A byte before the last
   * eight is shifted out of the word, but must be hexadecimal too.
   */
  method DecodeTail(s: Bytes, size: nat) returns (r: Option<nat>)
    requires |s| >= 2 + 2 * size
    ensures r.Some? <==> Read(s, size, size).Some?
    ensures r.Some? ==> r == Read(s, size, AtMost8(size))
  {
    var v := 0;
    for k := 0 to size
      invariant Read(s, size, k).Some? && Read(s, size, AtMost8(k)) == Some(v)
    {
      var b := HexAt(s, (size - k) * 2);
      if b.None? {
        ReadFails(s, size, k + 1, size);
        return None;
      }
      if k < 8 { v := v + Shl8(b.value, k); }
    }
    r := Some(v);
  }

  lemma {:induction false} ReadFails(s: Bytes, size: nat, k: nat, j: nat)
    requires |s| >= 2 + 2 * size && k <= j <= size && Read(s, size, k).None?
    ensures Read(s, size, j).None?
  {
    if k < j { ReadFails(s, size, k, j - 1); }
  }

  lemma ReadSome(s: Bytes, size: nat, k: nat, j: nat)
    requires |s| >= 2 + 2 * size && k <= j <= size && Read(s, size, j).Some?
    ensures Read(s, size, k).Some?
  {
    if Read(s, size, k).None? { ReadFails(s, size, k, j); }
  }

  lemma {:induction false} OnesStep(k: nat)
    ensures Ones(k + 1) == Ones(k) + Shl8(255, k)
  {
    if k > 0 { OnesStep(k - 1); }
  }

  /** Leading bytes that were trimmed are put back as `0xff`. */
  method FillOnes(v: nat, size: nat) returns (w: nat)
    requires size <= 8
    ensures w == v + Ones(8) - Ones(size)
  {
    w := v;
    for m := size to 8
      invariant w == v + Ones(m) - Ones(size)
    {
      OnesStep(m);
      w := w + Shl8(255, m);
    }
  }

  /** What the bytes after a head stand for: in reverse order, what they lack of all ones, negated. */
  function Meant(order: Byte, v: nat, size: nat): int {
    if order == NORMAL_ORDER then v else v - Ones(size)
  }

  /** How many bytes follow the head; a reverse head that says more than eight were trimmed is followed by none. */
  function BytesAfter(order: Byte, c: nat): nat {
    if order == NORMAL_ORDER then c else if c <= 8 then 8 - c else 0
  }

  /**
   * The head says which encoding follows and how long it is; a string too short for it cannot be decoded. Only the
   * last eight bytes count.
   */
  function Decoded(s: Bytes): Option<int> {
    if |s| < 2 || s[0] !in {NORMAL_ORDER, REVERSE_ORDER} || FromHexChar(s[1]).None? then None
    else
      var size := BytesAfter(s[0], FromHexChar(s[1]).value);
      if |s| < 2 + 2 * size || Read(s, size, size).None? then None
      else
        ReadSome(s, size, AtMost8(size), size);
        Some(Meant(s[0], Read(s, size, AtMost8(size)).value, size))
  }

  lemma {:induction false} NumberOfComplement(bs: Bytes)
    ensures Number(Complement(bs)) == Ones(|bs|) - Number(bs)
  {
    if bs != [] {
      NumberOfComplement(bs[..|bs| - 1]);
      assert Complement(bs)[..|bs| - 1] == Complement(bs[..|bs| - 1]);
    }
  }

  lemma DecodedBy(s: Bytes, size: nat, v: nat)
    requires size <= 8 && |s| == 2 + 2 * size && s[0] in {NORMAL_ORDER, REVERSE_ORDER}
    requires FromHexChar(s[1]) == Some(if s[0] == NORMAL_ORDER then size else 8 - size)
    requires Read(s, size, size) == Some(v)
    ensures Decoded(s) == Some(Meant(s[0], v, size))
  {
  }

  lemma ReadAll(head: Bytes, bs: Bytes)
    requires |head| == 2
    ensures Read(head + HexOf(bs), |bs|, |bs|) == Some(Number(bs))
  {
    ReadOfHex(head, bs, 0);
    NumberOfSuffix(bs, 0);
    assert bs[0..] == bs;
  }

  lemma DecodeParts(head: Bytes, bs: Bytes)
    requires |bs| <= 8 && |head| == 2 && head[0] in {NORMAL_ORDER, REVERSE_ORDER}
    requires FromHexChar(head[1]) == Some(if head[0] == NORMAL_ORDER then |bs| else 8 - |bs|)
    ensures Decoded(head + HexOf(bs)) == Some(Meant(head[0], Number(bs), |bs|))
  {
    ReadAll(head, bs);
    DecodedBy(head + HexOf(bs), |bs|, Number(bs));
  }

  lemma DecodeNormal(n: uint64)
    ensures Decoded(Normal(n)) == Some(n)
  {
    WordSize(n);
    NumberOfTail(n, Size(n));
    FromHexOfHex(Size(n));
    DecodeParts([NORMAL_ORDER, HexChar(Size(n))], Tail(n, Size(n)));
  }

  lemma DecodeReverse(n: uint64)
    ensures Decoded(Reverse(n)) == Some(0 - n)
  {
    WordSize(n);
    NumberOfTail(n, Size(n));
    NumberOfComplement(Tail(n, Size(n)));
    FromHexOfHex(8 - Size(n));
    DecodeParts([REVERSE_ORDER, HexChar(8 - Size(n))], Complement(Tail(n, Size(n))));
  }

  /** Decoding inverts encoding on every 64-bit integer. */
  lemma DecodeEncode(n: int64)
    ensures Decoded(EncodeInt64(n)) == Some(n)
  {
    if n < 0 { DecodeReverse(0 - n); } else { DecodeNormal(n); }
  }

  lemma NegateWraps(u: uint64)
    ensures Negate64(ToInt64(u)) == ToInt64((0 - u) % TWO64)
  {
    assert u > 0 ==> (0 - u) % TWO64 == TWO64 - u;
  }

  lemma InRange(n: int)
    ensures MIN_INT64 <= n < -MIN_INT64 ==> ToInt64(n % TWO64) == n
  {
    assert MIN_INT64 <= n < 0 ==> n % TWO64 == n + TWO64;
  }

  /** The complement and the negation of a word wrap around. */
  method FromWord(order: Byte, v: nat, size: nat) returns (n: int64)
    requires v <= Ones(AtMost8(size)) && (order != NORMAL_ORDER ==> size <= 8)
    ensures n == ToInt64(Meant(order, v, size) % TWO64)
  {
    OnesOfWord();
    OnesMonotone(AtMost8(size), 8);
    if order == NORMAL_ORDER {
      n := ToInt64(v);
    } else {
      var w := FillOnes(v, size);
      var u: uint64 := TWO64 - 1 - w;
      NegateWraps(u);
      n := Negate64(ToInt64(u));
    }
  }

  datatype DecodeResult = Value(n: int64) | Invalid | Panic

  /**
   * Where the decoder reads past the end: after a readable head, the last byte it announces is read first, character
   * by character.
   */
  predicate ReadsPastEnd(s: Bytes) {
    || s == []
    || (s[0] in {NORMAL_ORDER, REVERSE_ORDER} &&
        (|| |s| == 1
         || (FromHexChar(s[1]).Some? &&
             var size := BytesAfter(s[0], FromHexChar(s[1]).value);
             size > 0 && (|s| <= 2 * size || (|s| == 2 * size + 1 && FromHexChar(s[2 * size]).Some?)))))
  }

  /** `decodeInt64` on 64-bit words. */
  method DecodeInt64(s: Bytes) returns (r: DecodeResult)
    ensures r == Panic <==> ReadsPastEnd(s)
    ensures r.Value? <==> Decoded(s).Some?
    ensures r.Value? ==> r.n == ToInt64(Decoded(s).value % TWO64)
    ensures r.Value? && MIN_INT64 <= Decoded(s).value < -MIN_INT64 ==> r.n == Decoded(s).value
  {
    if |s| == 0 {
      return Panic;
    }
    if s[0] != NORMAL_ORDER && s[0] != REVERSE_ORDER {
      return Invalid;
    }
    if |s| == 1 {
      return Panic;
    }
    var c := FromHexChar(s[1]);
    if c.None? {
      return Invalid;
    }
    var size := BytesAfter(s[0], c.value);
    if |s| < 2 + 2 * size {
      return if |s| > 2 * size && FromHexChar(s[2 * size]).None? then Invalid else Panic;
    }
    var v := DecodeTail(s, size);
    if v.None? {
      return Invalid;
    }
    ReadBound(s, size, AtMost8(size));
    var n := FromWord(s[0], v.value, size);
    InRange(Meant(s[0], v.value, size));
    r := Value(n);
  }

  lemma {:induction false} ReadBound(s: Bytes, size: nat, k: nat)
    requires |s| >= 2 + 2 * size && k <= size && Read(s, size, k).Some?
    ensures Read(s, size, k).value <= Ones(k)
  {
    if k > 0 {
      ReadBound(s, size, k - 1);
      OnesStep(k - 1);
      ShlAtMost(HexAt(s, (size - (k - 1)) * 2).value, k - 1);
    }
  }

  lemma {:induction false} ShlAtMost(b: Byte, k: nat)
    ensures Shl8(b, k) <= Shl8(255, k)
  {
    if k > 0 { ShlAtMost(b, k - 1); }
  }

  lemma {:induction false} OnesMonotone(k: nat, j: nat)
    requires k <= j
    ensures Ones(k) <= Ones(j)
  {
    if k < j { OnesMonotone(k, j - 1); }
  }
}
