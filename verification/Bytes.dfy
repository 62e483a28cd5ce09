// Byte strings: the order in which the key-value store keeps its keys, and the
// fixed-width big-endian numbers that QDataStream and Python's struct write.

module Bytes {

  type byte = b: int | 0 <= b < 256
  type bytes = seq<byte>

  /** The bytewise order of LMDB keys and of QByteArray's operator<. */
  predicate Less(a: bytes, b: bytes) {
    b != [] && (a == [] || a[0] < b[0] || (a[0] == b[0] && Less(a[1..], b[1..])))
  }

  predicate AtMost(a: bytes, b: bytes) { a == b || Less(a, b) }

  lemma {:induction false} LessTrichotomy(a: bytes, b: bytes)
    ensures Less(a, b) || a == b || Less(b, a)
    ensures !(Less(a, b) && Less(b, a))
    ensures !Less(a, a)
  {
    if a != [] {
      LessTrichotomy(a[1..], a[1..]);
      if b != [] && a[0] == b[0] {
        LessTrichotomy(a[1..], b[1..]);
        assert a == [a[0]] + a[1..] && b == [b[0]] + b[1..];
      }
    }
  }

  lemma {:induction false} LessTransitive(a: bytes, b: bytes, c: bytes)
    requires Less(a, b) && Less(b, c)
    ensures Less(a, c)
  {
    if a != [] && a[0] == b[0] && b[0] == c[0] {
      LessTransitive(a[1..], b[1..], c[1..]);
    }
  }

  predicate HasPrefix(k: bytes, p: bytes) { |p| <= |k| && k[..|p|] == p }

  /** Keys with one prefix form an interval of the order, beginning at the prefix itself. */
  lemma {:induction false} PrefixBetween(p: bytes, k: bytes, q: bytes)
    requires AtMost(p, k) && AtMost(k, q) && HasPrefix(q, p)
    ensures HasPrefix(k, p)
  {
    if p != [] {
      LessTrichotomy(p, k);
      assert q[0] == p[0];
      assert k[0] == p[0];
      assert HasPrefix(q[1..], p[1..]) by { assert q[1..][..|p| - 1] == q[..|p|][1..]; }
      PrefixBetween(p[1..], k[1..], q[1..]);
      assert k[..|p|] == [k[0]] + k[1..][..|p| - 1];
    }
  }

  lemma {:induction false} PrefixNotBefore(p: bytes, k: bytes)
    requires HasPrefix(k, p)
    ensures AtMost(p, k)
  {
    if p != [] {
      assert k[1..][..|p| - 1] == k[..|p|][1..];
      PrefixNotBefore(p[1..], k[1..]);
      assert p == [p[0]] + p[1..] && k == [k[0]] + k[1..];
    }
  }

  function Pow256(w: nat): (p: nat)
    ensures p > 0
  {
    if w == 0 then 1 else 256 * Pow256(w - 1)
  }

  /** The w low-order bytes of n, most significant first. */
  function BigEndian(n: nat, w: nat): (s: bytes)
    ensures |s| == w
  {
    if w == 0 then [] else BigEndian(n / 256, w - 1) + [n % 256]
  }

  function Number(s: bytes): nat {
    if s == [] then 0 else 256 * Number(s[..|s| - 1]) + s[|s| - 1]
  }

  lemma {:induction false} NumberBound(s: bytes)
    ensures Number(s) < Pow256(|s|)
  {
    if s != [] {
      NumberBound(s[..|s| - 1]);
    }
  }

  lemma {:induction false} NumberOfBigEndian(n: nat, w: nat)
    requires n < Pow256(w)
    ensures Number(BigEndian(n, w)) == n
  {
    if w != 0 {
      NumberOfBigEndian(n / 256, w - 1);
      assert BigEndian(n, w)[..w - 1] == BigEndian(n / 256, w - 1);
    }
  }

  lemma {:induction false} BigEndianOfNumber(s: bytes)
    ensures BigEndian(Number(s), |s|) == s
  {
    if s != [] {
      var front, last := s[..|s| - 1], s[|s| - 1];
      BigEndianOfNumber(front);
      assert s == front + [last];
      assert Number(s) == 256 * Number(front) + last;
      assert Number(s) / 256 == Number(front) && Number(s) % 256 == last;
    }
  }

  lemma {:induction false} SnocOrder(s: bytes, x: byte, t: bytes, y: byte)
    requires |s| == |t|
    ensures Less(s + [x], t + [y]) <==> Less(s, t) || (s == t && x < y)
  {
    if s != [] {
      assert (s + [x])[1..] == s[1..] + [x] && (t + [y])[1..] == t[1..] + [y];
      SnocOrder(s[1..], x, t[1..], y);
      assert s == [s[0]] + s[1..] && t == [t[0]] + t[1..];
    } else {
      assert s + [x] == [x] && t + [y] == [y];
    }
  }

  /** A 32-bit number on the wire. */
  lemma FourBytes(n: nat)
    requires n < 0x1_0000_0000
    ensures BigEndian(n, 4) == [n / 0x100_0000, n / 0x1_0000 % 256, n / 256 % 256, n % 256]
  {
    assert BigEndian(n / 0x100_0000, 1) == [n / 0x100_0000 % 256] by { assert BigEndian(n / 0x1_0000_0000, 0) == []; }
    assert n / 256 / 256 == n / 0x1_0000 && n / 256 / 256 / 256 == n / 0x100_0000;
    assert BigEndian(n / 0x1_0000, 2) == BigEndian(n / 0x100_0000, 1) + [n / 0x1_0000 % 256];
    assert BigEndian(n / 256, 3) == BigEndian(n / 0x1_0000, 2) + [n / 256 % 256];
  }

  lemma ConcatAssociates(a: bytes, b: bytes, c: bytes)
    ensures a + b + c == a + (b + c)
  {
  }

  /** Byte strings of one width are ordered exactly as the numbers they write. */
  lemma {:induction false} NumberOrder(s: bytes, t: bytes)
    requires |s| == |t|
    ensures Less(s, t) <==> Number(s) < Number(t)
    ensures s == t <==> Number(s) == Number(t)
  {
    if s != [] {
      var a, x, b, y := s[..|s| - 1], s[|s| - 1], t[..|t| - 1], t[|t| - 1];
      assert s == a + [x] && t == b + [y];
      NumberOrder(a, b);
      SnocOrder(a, x, b, y);
    }
  }

  /** The same law read from the numbers. */
  lemma BigEndianOrder(m: nat, n: nat, w: nat)
    requires m < Pow256(w) && n < Pow256(w)
    ensures Less(BigEndian(m, w), BigEndian(n, w)) <==> m < n
    ensures BigEndian(m, w) == BigEndian(n, w) <==> m == n
  {
    NumberOfBigEndian(m, w);
    NumberOfBigEndian(n, w);
    NumberOrder(BigEndian(m, w), BigEndian(n, w));
  }
}
