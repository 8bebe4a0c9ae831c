/** Byte strings as Pebble compares them: lexicographic order, big-endian integers, the
    exclusive upper bound of a prefix, and the hexadecimal codec of ids and public keys. */
module Bytes {

  type byte = x: int | 0 <= x < 256
  type Bytes = seq<byte>

  const TWO_63: int := 0x8000_0000_0000_0000
  const TWO_64: int := 0x1_0000_0000_0000_0000

  type int64 = x: int | -TWO_63 <= x < TWO_63
  type uint64 = x: int | 0 <= x < TWO_64

  // ---------- Lexicographic order ----------

  /** The order of byte strings: the first difference decides, and a proper prefix comes first. */
  predicate Less(a: Bytes, b: Bytes) {
    if b == [] then false
    else if a == [] then true
    else if a[0] != b[0] then a[0] < b[0]
    else Less(a[1..], b[1..])
  }

  method BytesLess(a: Bytes, b: Bytes) returns (less: bool)
    ensures less <==> Less(a, b)
  {
    var minLen := if |b| < |a| then |b| else |a|;
    var i := 0;
    while i < minLen
      invariant 0 <= i <= minLen
      invariant Less(a, b) <==> Less(a[i..], b[i..])
    {
      if a[i] < b[i] {
        return true;
      }
      if a[i] > b[i] {
        return false;
      }
      assert a[i..][1..] == a[i + 1..] && b[i..][1..] == b[i + 1..];
      i := i + 1;
    }
    return |a| < |b|;
  }

  lemma {:induction false} LessTotal(a: Bytes, b: Bytes)
    ensures Less(a, b) || a == b || Less(b, a)
    ensures !(Less(a, b) && Less(b, a))
    ensures !Less(a, a)
  {
    if a != [] {
      LessTotal(a[1..], if b == [] then [] else b[1..]);
      if b != [] && a[0] == b[0] && a[1..] == b[1..] {
        assert a == [a[0]] + a[1..] && b == [b[0]] + b[1..];
      }
    }
  }

  lemma {:induction false} LessTransitive(a: Bytes, b: Bytes, c: Bytes)
    requires Less(a, b) && Less(b, c)
    ensures Less(a, c)
  {
    if a != [] && a[0] == b[0] == c[0] {
      LessTransitive(a[1..], b[1..], c[1..]);
    }
  }

  /** A common prefix does not matter. */
  lemma {:induction false} LessSamePrefix(p: Bytes, a: Bytes, b: Bytes)
    ensures Less(p + a, p + b) <==> Less(a, b)
  {
    if p == [] {
      assert p + a == a && p + b == b;
    } else {
      assert (p + a)[1..] == p[1..] + a && (p + b)[1..] == p[1..] + b;
      LessSamePrefix(p[1..], a, b);
    }
  }

  /** Before the ends of two strings of one length, whatever follows does not matter. */
  lemma {:induction false} LessAppend(a: Bytes, b: Bytes, x: Bytes, y: Bytes)
    requires |a| == |b|
    ensures Less(a + x, b + y) <==> Less(a, b) || (a == b && Less(x, y))
  {
    if a == [] {
      assert a + x == x && b + y == y;
    } else {
      assert (a + x)[1..] == a[1..] + x && (b + y)[1..] == b[1..] + y;
      LessAppend(a[1..], b[1..], x, y);
      assert a == [a[0]] + a[1..] && b == [b[0]] + b[1..];
    }
  }

  // ---------- Big-endian integers ----------

  function BigEndian(b: Bytes): nat {
    if b == [] then 0 else 256 * BigEndian(b[..|b| - 1]) + b[|b| - 1]
  }

  function Pow256(k: nat): (p: nat)
    ensures p > 0
  {
    if k == 0 then 1 else 256 * Pow256(k - 1)
  }

  /** The `k`-byte big-endian form of `n`. */
  function PutBigEndian(n: nat, k: nat): (b: Bytes)
    ensures |b| == k
  {
    if k == 0 then [] else PutBigEndian(n / 256, k - 1) + [n % 256]
  }

  lemma {:induction false} BigEndianRoundTrip(n: nat, k: nat)
    requires n < Pow256(k)
    ensures BigEndian(PutBigEndian(n, k)) == n
  {
    if k > 0 {
      BigEndianRoundTrip(n / 256, k - 1);
      assert PutBigEndian(n, k)[..k - 1] == PutBigEndian(n / 256, k - 1);
    }
  }

  /** On strings of one length, byte order is the order of the big-endian values, and the value
      determines the string. */
  lemma {:induction false} BigEndianOrder(a: Bytes, b: Bytes)
    requires |a| == |b|
    ensures Less(a, b) <==> BigEndian(a) < BigEndian(b)
    ensures a == b <==> BigEndian(a) == BigEndian(b)
  {
    if a != [] {
      var a', b' := a[..|a| - 1], b[..|b| - 1];
      var x, y := a[|a| - 1], b[|b| - 1];
      BigEndianOrder(a', b');
      assert a == a' + [x] && b == b' + [y];
      LessAppend(a', b', [x], [y]);
    }
  }

  /** The eight-byte form of an unsigned 64-bit integer. */
  function PutUint64(n: uint64): (b: Bytes)
    ensures |b| == 8
  {
    PutBigEndian(n, 8)
  }

  lemma Uint64RoundTrip(n: uint64)
    ensures BigEndian(PutUint64(n)) == n
  {
    assert Pow256(8) == TWO_64 by {
      assert Pow256(2) == 0x1_0000 && Pow256(4) == 0x1_0000_0000;
      assert Pow256(6) == 0x1_0000_0000_0000;
    }
    BigEndianRoundTrip(n, 8);
  }

  lemma EightBytes(b: Bytes)
    requires |b| == 8
    ensures BigEndian(b) < TWO_64
  {
    BelowPow(b);
    assert Pow256(2) == 0x1_0000 && Pow256(4) == 0x1_0000_0000;
    assert Pow256(6) == 0x1_0000_0000_0000;
  }

  lemma {:induction false} BelowPow(b: Bytes)
    ensures BigEndian(b) < Pow256(|b|)
  {
    if b != [] {
      BelowPow(b[..|b| - 1]);
    }
  }

  lemma PutUint64Back(b: Bytes)
    requires |b| == 8
    ensures BigEndian(b) < TWO_64 && PutUint64(BigEndian(b)) == b
  {
    EightBytes(b);
    Uint64RoundTrip(BigEndian(b));
    BigEndianOrder(PutUint64(BigEndian(b)), b);
  }

  lemma Uint64Order(m: uint64, n: uint64)
    ensures Less(PutUint64(m), PutUint64(n)) <==> m < n
    ensures PutUint64(m) == PutUint64(n) <==> m == n
  {
    Uint64RoundTrip(m);
    Uint64RoundTrip(n);
    BigEndianOrder(PutUint64(m), PutUint64(n));
  }

  // ---------- Exclusive upper bound of a prefix ----------

  predicate AllMax(b: Bytes) {
    forall i :: 0 <= i < |b| ==> b[i] == 255
  }

  function Zeros(n: nat): (z: Bytes)
    ensures |z| == n && forall i :: 0 <= i < n ==> z[i] == 0
  {
    seq(n, _ => 0)
  }

  /** The string just above every extension of `b`: carry from the last byte. A string of
      maximal bytes comes back as zeros with one more zero. */
  function Increment(b: Bytes): Bytes {
    if AllMax(b) then Zeros(|b| + 1)
    else if AllMax(b[1..]) then [b[0] + 1] + Zeros(|b| - 1)
    else [b[0]] + Increment(b[1..])
  }

  lemma {:induction false} IncrementAt(b: Bytes, i: nat)
    requires i < |b| && b[i] < 255 && AllMax(b[i + 1..])
    ensures Increment(b) == b[..i] + [b[i] + 1] + Zeros(|b| - i - 1)
  {
    if i > 0 {
      assert b[1..][i - 1] < 255;
      assert b[1..][i..] == b[i + 1..];
      IncrementAt(b[1..], i - 1);
      assert b[..i] == [b[0]] + b[1..][..i - 1];
    }
  }

  method IncrementBytes(b: Bytes) returns (result: Bytes)
    ensures result == Increment(b)
  {
    var r := new byte[|b|](k requires 0 <= k < |b| => b[k]);
    var i := r.Length - 1;
    while i >= 0
      invariant -1 <= i < r.Length
      invariant r[..i + 1] == b[..i + 1]
      invariant forall k :: i < k < |b| ==> r[k] == 0 && b[k] == 255
    {
      if r[i] < 0xFF {
        assert b[i] == b[..i + 1][i] == r[..i + 1][i];
        r[i] := r[i] + 1;
        IncrementAt(b, i);
        assert r[..i] == b[..i + 1][..i] == b[..i];
        return r[..];
      }
      assert b[i] == b[..i + 1][i] == r[..i + 1][i];
      r[i] := 0;
      assert r[..i] == b[..i + 1][..i] == b[..i];
      i := i - 1;
    }
    result := r[..] + [0];
  }

  lemma {:induction false} MaxIsLast(k: Bytes, m: Bytes)
    requires AllMax(m)
    ensures !Less(k, m) <==> m <= k
  {
    if m != [] && k != [] && k[0] == 255 {
      MaxIsLast(k[1..], m[1..]);
      assert m == [m[0]] + m[1..] && k == [k[0]] + k[1..];
    }
  }

  lemma {:induction false} ZerosAreFirst(k: Bytes, n: nat)
    requires |k| >= n
    ensures !Less(k, Zeros(n))
  {
    if n > 0 && k[0] == 0 {
      assert Zeros(n)[1..] == Zeros(n - 1);
      ZerosAreFirst(k[1..], n - 1);
    }
  }

  predicate InRange(k: Bytes, lower: Bytes, upper: Bytes) {
    !Less(k, lower) && Less(k, upper)
  }

  lemma {:induction false} IncrementBounds(p: Bytes, k: Bytes)
    requires !AllMax(p)
    requires |k| >= |p|
    ensures InRange(k, p, Increment(p)) <==> p <= k
  {
    assert p == [p[0]] + p[1..];
    assert k == [k[0]] + k[1..];
    if AllMax(p[1..]) {
      assert Increment(p)[1..] == Zeros(|p| - 1);
      if k[0] == p[0] {
        MaxIsLast(k[1..], p[1..]);
      } else if k[0] == p[0] + 1 {
        ZerosAreFirst(k[1..], |p| - 1);
      }
    } else if k[0] == p[0] {
      assert Increment(p)[1..] == Increment(p[1..]);
      IncrementBounds(p[1..], k[1..]);
    }
  }

  /** `[p, Increment(p))` is exactly the set of strings that start with `p`, among strings no
      shorter than `p`, if and only if some byte of `p` is not 0xFF. */
  lemma PrefixRangeExact(p: Bytes)
    ensures (forall k: Bytes :: |k| >= |p| ==> (InRange(k, p, Increment(p)) <==> p <= k)) <==> !AllMax(p)
  {
    if AllMax(p) {
      assert |p| >= |p| && p <= p;
      ZerosAndMax(p);
      assert !InRange(p + [0], p, Increment(p)) && p <= p + [0];
    } else {
      forall k: Bytes | |k| >= |p| ensures InRange(k, p, Increment(p)) <==> p <= k {
        IncrementBounds(p, k);
      }
    }
  }

  lemma {:induction false} ZerosAndMax(p: Bytes)
    requires AllMax(p)
    ensures !Less(p + [0], Zeros(|p| + 1))
  {
    ZerosAreFirst(p + [0], |p| + 1);
  }

  /** Among strings of any length the range is exact if and only if the last byte of the prefix is
      not 0xFF: the carry leaves trailing zeros, and a string shorter than the prefix slips in. */
  lemma PrefixRangeExactAnyLength(p: Bytes)
    ensures (forall k: Bytes :: InRange(k, p, Increment(p)) <==> p <= k)
            <==> p != [] && p[|p| - 1] != 255
  {
    if p != [] && p[|p| - 1] != 255 {
      forall k: Bytes ensures InRange(k, p, Increment(p)) <==> p <= k {
        LastByteFree(p, k);
      }
    } else {
      var k := PrefixRangeIntruder(p);
    }
  }

  lemma LastByteFree(p: Bytes, k: Bytes)
    requires p != [] && p[|p| - 1] != 255
    ensures InRange(k, p, Increment(p)) <==> p <= k
  {
    if |k| >= |p| {
      IncrementBounds(p, k);
    } else {
      assert AllMax(p[|p|..]);
      IncrementAt(p, |p| - 1);
      assert Increment(p) == p[..|p| - 1] + [p[|p| - 1] + 1];
      ShortBelow(p, k);
    }
  }

  /** A key on which the range and the prefix disagree when the last byte of the prefix carries. */
  lemma PrefixRangeIntruder(p: Bytes) returns (k: Bytes)
    requires p == [] || p[|p| - 1] == 255
    ensures InRange(k, p, Increment(p)) <==> !(p <= k)
  {
    if AllMax(p) {
      k := p + [0];
      ZerosAndMax(p);
    } else {
      var i := LastNotMax(p, |p| - 1);
      k := p[..i] + [p[i] + 1];
      IncrementAt(p, i);
      assert p == p[..i] + p[i..];
      assert Increment(p) == p[..i] + ([p[i] + 1] + Zeros(|p| - i - 1));
      LessSamePrefix(p[..i], [p[i] + 1], p[i..]);
      LessSamePrefix(p[..i], [p[i] + 1], [p[i] + 1] + Zeros(|p| - i - 1));
    }
  }

  lemma {:induction false} LastNotMax(p: Bytes, j: nat) returns (i: nat)
    requires !AllMax(p) && j < |p| && AllMax(p[j + 1..])
    ensures i < |p| && p[i] != 255 && AllMax(p[i + 1..])
  {
    if p[j] != 255 {
      i := j;
    } else if j == 0 {
      assert false;
    } else {
      assert p[j..] == [p[j]] + p[j + 1..];
      i := LastNotMax(p, j - 1);
    }
  }

  /** A string shorter than the prefix lies outside the range when the last byte does not carry. */
  lemma {:induction false} ShortBelow(p: Bytes, k: Bytes)
    requires |k| < |p| && p[|p| - 1] != 255
    ensures !InRange(k, p, p[..|p| - 1] + [p[|p| - 1] + 1])
  {
    var q := p[..|p| - 1] + [p[|p| - 1] + 1];
    if k != [] && k[0] == p[0] {
      assert q[1..] == p[1..][..|p| - 2] + [p[|p| - 1] + 1];
      ShortBelow(p[1..], k[1..]);
    }
  }

  // ---------- Inverted timestamps ----------

  /** Two's complement wrap-around of a 64-bit signed result. */
  function WrapInt64(x: int): int64 {
    (x + TWO_63) % TWO_64 - TWO_63
  }

  function ToUint64(x: int64): uint64 {
    x % TWO_64
  }

  function ToInt64(x: uint64): int64 {
    if x < TWO_63 then x else x - TWO_64
  }

  function InvertTimestamp(ts: int64): uint64 {
    ToUint64(WrapInt64((TWO_63 - 1) - ts))
  }

  /** The wrap-around of the subtraction and the conversion to unsigned cancel. */
  lemma InvertTimestampValue(ts: int64)
    ensures InvertTimestamp(ts) == (TWO_63 - 1) - ts
  {
  }

  /** Inverting a timestamp is a strictly decreasing bijection from int64 onto uint64. */
  lemma InvertTimestampBijection(a: int64, b: int64, u: uint64)
    ensures a < b <==> InvertTimestamp(a) > InvertTimestamp(b)
    ensures InvertTimestamp((TWO_63 - 1) - u) == u
  {
    InvertTimestampValue(a);
    InvertTimestampValue(b);
    InvertTimestampValue((TWO_63 - 1) - u);
  }

  lemma Int64RoundTrip(x: int64)
    ensures ToInt64(ToUint64(x)) == x
  {
  }

  // ---------- Hexadecimal ----------

  /** The order of strings. */
  predicate StringLess(a: string, b: string) {
    if b == [] then false
    else if a == [] then true
    else if a[0] != b[0] then a[0] < b[0]
    else StringLess(a[1..], b[1..])
  }

  lemma {:induction false} StringLessTotal(a: string, b: string)
    ensures StringLess(a, b) || a == b || StringLess(b, a)
    ensures !(StringLess(a, b) && StringLess(b, a))
    ensures !StringLess(a, a)
  {
    if a != [] {
      StringLessTotal(a[1..], if b == [] then [] else b[1..]);
      if b != [] && a[0] == b[0] && a[1..] == b[1..] {
        assert a == [a[0]] + a[1..] && b == [b[0]] + b[1..];
      }
    }
  }

  lemma {:induction false} StringLessTransitive(a: string, b: string, c: string)
    requires StringLess(a, b) && StringLess(b, c)
    ensures StringLess(a, c)
  {
    if a != [] && a[0] == b[0] == c[0] {
      StringLessTransitive(a[1..], b[1..], c[1..]);
    }
  }

  predicate LowerHexDigit(c: char) {
    '0' <= c <= '9' || 'a' <= c <= 'f'
  }

  predicate LowerHex(s: string) {
    forall i :: 0 <= i < |s| ==> LowerHexDigit(s[i])
  }

  method IsValidLowercaseHex(s: string, length: nat) returns (valid: bool)
    ensures valid <==> |s| == length && LowerHex(s)
  {
    if |s| != length {
      return false;
    }
    var i := 0;
    while i < |s|
      invariant 0 <= i <= |s|
      invariant forall k :: 0 <= k < i ==> LowerHexDigit(s[k])
    {
      var c := s[i];
      if !(('0' <= c && c <= '9') || ('a' <= c && c <= 'f')) {
        return false;
      }
      i := i + 1;
    }
    return true;
  }

  function HexByte(c: char): (n: byte)
    ensures n < 16
  {
    if '0' <= c <= '9' then c as int - '0' as int
    else if 'a' <= c <= 'f' then c as int - 'a' as int + 10
    else if 'A' <= c <= 'F' then c as int - 'A' as int + 10
    else 0
  }

  function HexDigit(n: int): char
    requires 0 <= n < 16
  {
    if n < 10 then '0' + n as char else 'a' + (n - 10) as char
  }

  /** Two hexadecimal digits make one byte; a digit left over is ignored. */
  function FromHex(s: string): (b: Bytes)
    ensures |b| == |s| / 2
  {
    if |s| < 2 then [] else [HexByte(s[0]) * 16 + HexByte(s[1])] + FromHex(s[2..])
  }

  function ToHex(b: Bytes): (s: string)
    ensures |s| == 2 * |b|
  {
    if b == [] then [] else [HexDigit(b[0] / 16), HexDigit(b[0] % 16)] + ToHex(b[1..])
  }

  lemma {:induction false} FromHexAt(s: string, i: nat)
    requires 2 * i + 1 < |s|
    ensures FromHex(s)[i] == HexByte(s[2 * i]) * 16 + HexByte(s[2 * i + 1])
  {
    if i > 0 {
      FromHexAt(s[2..], i - 1);
    }
  }

  lemma {:induction false} ToHexAt(b: Bytes, i: nat)
    requires i < |b|
    ensures ToHex(b)[2 * i] == HexDigit(b[i] / 16) && ToHex(b)[2 * i + 1] == HexDigit(b[i] % 16)
  {
    if i > 0 {
      ToHexAt(b[1..], i - 1);
    }
  }

  method HexToBytes32(hex: string) returns (b: Bytes)
    requires |hex| == 64
    ensures b == FromHex(hex)
  {
    var r := new byte[32](_ => 0);
    for i := 0 to 32
      invariant forall k :: 0 <= k < i ==> r[k] == FromHex(hex)[k]
    {
      FromHexAt(hex, i);
      r[i] := HexByte(hex[i * 2]) * 16 + HexByte(hex[i * 2 + 1]);
    }
    b := r[..];
  }

  method BytesToHex(b: Bytes) returns (hex: string)
    ensures hex == ToHex(b)
  {
    var r := new char[|b| * 2](_ => '0');
    for i := 0 to |b|
      invariant forall k :: 0 <= k < 2 * i ==> r[k] == ToHex(b)[k]
    {
      ToHexAt(b, i);
      r[i * 2] := HexDigit(b[i] / 16);
      r[i * 2 + 1] := HexDigit(b[i] % 16);
    }
    hex := r[..];
  }

  lemma {:induction false} HexRoundTrip(b: Bytes)
    ensures FromHex(ToHex(b)) == b
    ensures LowerHex(ToHex(b))
  {
    if b != [] {
      HexRoundTrip(b[1..]);
      assert ToHex(b)[2..] == ToHex(b[1..]);
    }
  }

  lemma HexBackAndForth(s: string)
    requires |s| % 2 == 0 && LowerHex(s)
    ensures ToHex(FromHex(s)) == s
  {
    hide ToHex, FromHex, HexDigit, HexByte;
    forall i | 0 <= i < |s| ensures ToHex(FromHex(s))[i] == s[i] {
      var j := i / 2;
      assert i == 2 * j || i == 2 * j + 1;
      FromHexAt(s, j);
      ToHexAt(FromHex(s), j);
      DigitOrder(s[2 * j], s[2 * j]);
      DigitOrder(s[2 * j + 1], s[2 * j + 1]);
    }
  }

  predicate AnyHexDigit(c: char) {
    '0' <= c <= '9' || 'a' <= c <= 'f' || 'A' <= c <= 'F'
  }

  function Lowered(s: string): (t: string)
    ensures |t| == |s|
  {
    seq(|s|, i requires 0 <= i < |s| => if 'A' <= s[i] <= 'F' then s[i] - 'A' + 'a' else s[i])
  }

  /** Hexadecimal digits of either case are read alike. */
  lemma AnyCase(s: string)
    requires |s| % 2 == 0 && forall i :: 0 <= i < |s| ==> AnyHexDigit(s[i])
    ensures FromHex(s) == FromHex(Lowered(s)) && ToHex(FromHex(s)) == Lowered(s)
  {
    hide ToHex, FromHex, HexDigit;
    forall i | 0 <= i < |s| / 2 ensures FromHex(s)[i] == FromHex(Lowered(s))[i] {
      FromHexAt(s, i);
      FromHexAt(Lowered(s), i);
    }
    HexBackAndForth(Lowered(s));
  }

  lemma {:induction false} HexLess(s: string, t: string)
    requires |s| == |t| && |s| % 2 == 0 && LowerHex(s) && LowerHex(t)
    ensures StringLess(s, t) <==> Less(FromHex(s), FromHex(t))
  {
    if s != [] {
      HexLess(s[2..], t[2..]);
      DigitOrder(s[0], t[0]);
      DigitOrder(s[1], t[1]);
      assert s[1..][1..] == s[2..] && t[1..][1..] == t[2..];
    }
  }

  /** Lower-case hexadecimal survives decoding and encoding, and its order is byte order. */
  lemma HexOrder(s: string, t: string)
    requires |s| == |t| && |s| % 2 == 0 && LowerHex(s) && LowerHex(t)
    ensures ToHex(FromHex(s)) == s
    ensures StringLess(s, t) <==> Less(FromHex(s), FromHex(t))
    ensures s == t <==> FromHex(s) == FromHex(t)
  {
    hide StringLess, Less, FromHex, ToHex;
    HexBackAndForth(s);
    HexBackAndForth(t);
    HexLess(s, t);
  }

  lemma DigitOrder(c: char, d: char)
    requires LowerHexDigit(c) && LowerHexDigit(d)
    ensures HexDigit(HexByte(c)) == c
    ensures HexByte(c) < HexByte(d) <==> c < d
    ensures HexByte(c) == HexByte(d) <==> c == d
  {
  }
}
