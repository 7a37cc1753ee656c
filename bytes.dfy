/** Fixed-width integer types, byte strings and the byte-string order used
    throughout the model (flow's StringRef compares with memcmp, then by
    length). */
module Bytes {

  type byte = x: int | 0 <= x < 256
  type uint32 = x: int | 0 <= x < 0x1_0000_0000
  type uint64 = x: int | 0 <= x < 0x1_0000_0000_0000_0000
  type int64 = x: int | -0x8000_0000_0000_0000 <= x < 0x8000_0000_0000_0000

  /** flow's 128-bit UID. */
  datatype Uid = Uid(first: uint64, second: uint64)

  /** StringRef's operator<: unsigned bytewise comparison of the common
      prefix, then the shorter string first. */
  predicate Less(a: seq<byte>, b: seq<byte>)
  {
    if |a| == 0 then |b| > 0
    else if |b| == 0 then false
    else if a[0] != b[0] then a[0] < b[0]
    else Less(a[1..], b[1..])
  }

  predicate LessEq(a: seq<byte>, b: seq<byte>)
  {
    a == b || Less(a, b)
  }

  lemma {:induction false} LessIrreflexive(a: seq<byte>)
    ensures !Less(a, a)
  {
    if |a| > 0 {
      LessIrreflexive(a[1..]);
    }
  }

  lemma {:induction false} LessTransitive(a: seq<byte>, b: seq<byte>, c: seq<byte>)
    requires Less(a, b) && Less(b, c)
    ensures Less(a, c)
  {
    if |a| > 0 && |b| > 0 && |c| > 0 && a[0] == b[0] && b[0] == c[0] {
      LessTransitive(a[1..], b[1..], c[1..]);
    }
  }

  /** Exactly one of a < b, a == b, b < a holds. */
  lemma {:induction false} LessTrichotomy(a: seq<byte>, b: seq<byte>)
    ensures a == b || Less(a, b) || Less(b, a)
    ensures !(Less(a, b) && Less(b, a))
  {
    if |a| > 0 && |b| > 0 && a[0] == b[0] {
      LessTrichotomy(a[1..], b[1..]);
      if a[1..] == b[1..] {
        assert a == [a[0]] + a[1..] && b == [b[0]] + b[1..];
      }
    }
  }

  /** A proper prefix sorts first. */
  lemma {:induction false} PrefixLess(p: seq<byte>, s: seq<byte>)
    requires |s| > 0
    ensures Less(p, p + s)
  {
    if |p| > 0 {
      assert (p + s)[1..] == p[1..] + s;
      PrefixLess(p[1..], s);
    }
  }

  /** Comparing two strings with a common prefix compares what follows it. */
  lemma {:induction false} CommonPrefixLess(p: seq<byte>, a: seq<byte>, b: seq<byte>)
    ensures Less(p + a, p + b) <==> Less(a, b)
  {
    if |p| > 0 {
      assert (p + a)[1..] == p[1..] + a;
      assert (p + b)[1..] == p[1..] + b;
      CommonPrefixLess(p[1..], a, b);
    } else {
      assert p + a == a && p + b == b;
    }
  }

  /** For equal-length heads, the order of two concatenations is decided by
      the heads first and by the tails only when the heads are equal. */
  lemma {:induction false} ConcatLess(a: seq<byte>, c: seq<byte>, b: seq<byte>, d: seq<byte>)
    requires |a| == |b|
    ensures Less(a + c, b + d) <==> Less(a, b) || (a == b && Less(c, d))
  {
    if |a| > 0 {
      assert (a + c)[1..] == a[1..] + c;
      assert (b + d)[1..] == b[1..] + d;
      ConcatLess(a[1..], c, b[1..], d);
      if a[0] == b[0] && a[1..] == b[1..] {
        assert a == [a[0]] + a[1..] && b == [b[0]] + b[1..];
      }
    } else {
      assert a + c == c && b + d == d;
    }
  }

  /** Strings whose first difference is a bigger byte at position i sort after. */
  lemma {:induction false} DifferAtLess(a: seq<byte>, b: seq<byte>, i: nat)
    requires i < |a| && i < |b| && a[..i] == b[..i] && a[i] < b[i]
    ensures Less(a, b)
  {
    if i > 0 {
      assert a[1..][..i - 1] == a[..i][1..];
      assert b[1..][..i - 1] == b[..i][1..];
      assert a[0] == a[..i][0] && b[0] == b[..i][0];
      DifferAtLess(a[1..], b[1..], i - 1);
    }
  }

  // ---------------------------------------------------------------------
  // Fixed-width little- and big-endian encodings of naturals

  /** The n low-order bytes of x, least significant first. */
  function LittleEndian(n: nat, x: nat): (r: seq<byte>)
    ensures |r| == n
  {
    if n == 0 then [] else [x % 256] + LittleEndian(n - 1, x / 256)
  }

  /** The n low-order bytes of x, most significant first. */
  function BigEndian(n: nat, x: nat): (r: seq<byte>)
    ensures |r| == n
  {
    if n == 0 then [] else BigEndian(n - 1, x / 256) + [x % 256]
  }

  function FromLittleEndian(s: seq<byte>): nat
  {
    if s == [] then 0 else s[0] + 256 * FromLittleEndian(s[1..])
  }

  function FromBigEndian(s: seq<byte>): nat
  {
    if s == [] then 0 else 256 * FromBigEndian(s[..|s| - 1]) + s[|s| - 1]
  }

  function Pow256(n: nat): (r: nat)
    ensures r > 0
  {
    if n == 0 then 1 else 256 * Pow256(n - 1)
  }

  function Reverse<T>(s: seq<T>): (r: seq<T>)
    ensures |r| == |s|
  {
    if s == [] then [] else Reverse(s[1..]) + [s[0]]
  }

  lemma {:induction false} FromLittleEndianBound(s: seq<byte>)
    ensures FromLittleEndian(s) < Pow256(|s|)
  {
    if s != [] {
      FromLittleEndianBound(s[1..]);
    }
  }

  lemma {:induction false} LittleEndianRoundTrip(n: nat, x: nat)
    requires x < Pow256(n)
    ensures FromLittleEndian(LittleEndian(n, x)) == x
  {
    if n > 0 {
      LittleEndianRoundTrip(n - 1, x / 256);
    }
  }

  lemma {:induction false} LittleEndianOfDecode(s: seq<byte>)
    ensures LittleEndian(|s|, FromLittleEndian(s)) == s
  {
    if s != [] {
      var t := FromLittleEndian(s[1..]);
      DigitSplit(s[0], t);
      LittleEndianOfDecode(s[1..]);
      assert LittleEndian(|s|, FromLittleEndian(s)) == [s[0]] + LittleEndian(|s| - 1, t);
      assert s == [s[0]] + s[1..];
    }
  }

  /** A low byte and the rest are recovered by % 256 and / 256. */
  lemma DigitSplit(b: byte, t: nat)
    ensures (b + 256 * t) % 256 == b && (b + 256 * t) / 256 == t
  {
  }

  lemma {:induction false} BigEndianRoundTrip(n: nat, x: nat)
    requires x < Pow256(n)
    ensures FromBigEndian(BigEndian(n, x)) == x
  {
    if n > 0 {
      var r := BigEndian(n, x);
      assert r[..n - 1] == BigEndian(n - 1, x / 256);
      BigEndianRoundTrip(n - 1, x / 256);
    }
  }

  /** Reversing the little-endian bytes gives the big-endian bytes. */
  lemma {:induction false} ReverseLittleEndian(n: nat, x: nat)
    ensures Reverse(LittleEndian(n, x)) == BigEndian(n, x)
  {
    if n > 0 {
      var l := LittleEndian(n, x);
      assert l[1..] == LittleEndian(n - 1, x / 256);
      ReverseLittleEndian(n - 1, x / 256);
    }
  }

  lemma {:induction false} ReverseReverse<T>(s: seq<T>)
    ensures Reverse(Reverse(s)) == s
  {
    if s != [] {
      ReverseReverse(s[1..]);
      ReverseAppend(Reverse(s[1..]), [s[0]]);
      assert Reverse([s[0]]) == [s[0]];
      assert s == [s[0]] + s[1..];
    }
  }

  lemma {:induction false} ReverseAppend<T>(a: seq<T>, b: seq<T>)
    ensures Reverse(a + b) == Reverse(b) + Reverse(a)
  {
    if a == [] {
      assert a + b == b;
    } else {
      assert (a + b)[1..] == a[1..] + b;
      ReverseAppend(a[1..], b);
    }
  }

  /** Big-endian encodings of the same width order like the numbers they encode:
      the reason fixed-width big-endian fields keep keys in numeric order. */
  lemma {:induction false} BigEndianOrder(n: nat, x: nat, y: nat)
    requires x < Pow256(n) && y < Pow256(n)
    ensures Less(BigEndian(n, x), BigEndian(n, y)) <==> x < y
  {
    if n == 0 {
    } else {
      var hx, hy := BigEndian(n - 1, x / 256), BigEndian(n - 1, y / 256);
      ConcatLess(hx, [x % 256], hy, [y % 256]);
      BigEndianOrder(n - 1, x / 256, y / 256);
      if hx == hy {
        BigEndianRoundTrip(n - 1, x / 256);
        BigEndianRoundTrip(n - 1, y / 256);
      }
    }
  }

  // ---------------------------------------------------------------------
  // Two's complement view of 64-bit integers

  function ToUint64(x: int64): (r: uint64)
    ensures x >= 0 ==> r == x
  {
    if x >= 0 then x else x + 0x1_0000_0000_0000_0000
  }

  function ToInt64(u: uint64): (r: int64)
    ensures ToUint64(r) == u
  {
    if u < 0x8000_0000_0000_0000 then u else u - 0x1_0000_0000_0000_0000
  }

  lemma Int64RoundTrip(x: int64)
    ensures ToInt64(ToUint64(x)) == x
  {
  }

  /** flow's bigEndian64: reverses the eight bytes of a 64-bit value. */
  function ByteSwap64(x: uint64): (r: uint64)
  {
    FromLittleEndianBound(Reverse(LittleEndian(8, x)));
    FromLittleEndian(Reverse(LittleEndian(8, x)))
  }

  /** Writing the swapped value in host (little-endian) order writes the
      big-endian bytes of the original. */
  lemma ByteSwapWritesBigEndian(x: uint64)
    ensures LittleEndian(8, ByteSwap64(x)) == BigEndian(8, x)
  {
    LittleEndianOfDecode(Reverse(LittleEndian(8, x)));
    ReverseLittleEndian(8, x);
  }

  /** Reading a string little-endian after reversing it reads it big-endian. */
  lemma {:induction false} FromLittleEndianReverse(s: seq<byte>)
    ensures FromLittleEndian(Reverse(s)) == FromBigEndian(s)
  {
    if s != [] {
      var n := |s|;
      assert s == s[..n - 1] + [s[n - 1]];
      ReverseAppend(s[..n - 1], [s[n - 1]]);
      assert Reverse([s[n - 1]]) == [s[n - 1]];
      assert Reverse(s)[1..] == Reverse(s[..n - 1]);
      FromLittleEndianReverse(s[..n - 1]);
    }
  }

  /** Reading eight little-endian bytes and swapping them reads them big-endian. */
  lemma ByteSwapReadsBigEndian(s: seq<byte>)
    requires |s| == 8
    ensures FromLittleEndian(s) < 0x1_0000_0000_0000_0000
    ensures ByteSwap64(FromLittleEndian(s)) == FromBigEndian(s)
  {
    FromLittleEndianBound(s);
    LittleEndianOfDecode(s);
    FromLittleEndianReverse(s);
  }

  lemma {:induction false} FromBigEndianBound(s: seq<byte>)
    ensures FromBigEndian(s) < Pow256(|s|)
  {
    if s != [] {
      FromBigEndianBound(s[..|s| - 1]);
    }
  }

  /** bigEndian64 is its own inverse. */
  lemma ByteSwapInvolution(x: uint64)
    ensures ByteSwap64(ByteSwap64(x)) == x
  {
    ByteSwapWritesBigEndian(x);
    ByteSwapReadsBigEndian(BigEndian(8, x));
    LittleEndianRoundTrip(8, ByteSwap64(x));
    BigEndianRoundTrip(8, x);
  }
}
