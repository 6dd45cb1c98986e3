/**
 * Bit strings, most significant bit first, and the common-prefix primitive
 * the trie is built on. A 128-bit key of the Go code (a `uint128.Uint128`)
 * is a `Key`: index 0 is bit 127 of the integer, index 127 is bit 0.
 */
module Bits {
  import opened Machine

  const TWO_64: int := 0x1_0000_0000_0000_0000

  function Pow2(n: nat): (r: nat)
    ensures r > 0
  {
    if n == 0 then 1 else 2 * Pow2(n - 1)
  }

  /** The w low-order bits of x, most significant first. */
  function NatToBits(x: nat, w: nat): (r: seq<bool>)
    ensures |r| == w
  {
    if w == 0 then [] else NatToBits(x / 2, w - 1) + [x % 2 == 1]
  }

  /** The numeric value of a bit string read most significant bit first. */
  function BitsToNat(s: seq<bool>): (r: nat)
    ensures r < Pow2(|s|)
  {
    if |s| == 0 then 0 else 2 * BitsToNat(s[..|s| - 1]) + (if s[|s| - 1] then 1 else 0)
  }

  /** The bytes of an address, each expanded to its eight bits. */
  function BytesToBits(bs: seq<byte>): (r: seq<bool>)
    ensures |r| == 8 * |bs|
  {
    if |bs| == 0 then [] else BytesToBits(bs[..|bs| - 1]) + NatToBits(bs[|bs| - 1], 8)
  }

  /** The w-bit expansion is the inverse of reading the bits as a number. */
  lemma {:induction false} BitsRoundTrip(x: nat, w: nat)
    requires x < Pow2(w)
    ensures BitsToNat(NatToBits(x, w)) == x
  {
    if w > 0 {
      var s := NatToBits(x, w);
      assert s[..w - 1] == NatToBits(x / 2, w - 1);
      BitsRoundTrip(x / 2, w - 1);
    }
  }

  /** Expanding `x * 2^v + y` with y below 2^v puts the bits of x before those of y. */
  lemma {:induction false} NatToBitsConcat(x: nat, y: nat, w: nat, v: nat)
    requires y < Pow2(v)
    ensures NatToBits(x * Pow2(v) + y, w + v) == NatToBits(x, w) + NatToBits(y, v)
  {
    if v == 0 {
      assert y == 0;
    } else {
      var n := x * Pow2(v) + y;
      assert x * Pow2(v) == 2 * (x * Pow2(v - 1));
      assert n / 2 == x * Pow2(v - 1) + y / 2;
      assert n % 2 == y % 2;
      NatToBitsConcat(x, y / 2, w, v - 1);
    }
  }

  /** The bit expansion of a byte string is the bit expansion of its big-endian value. */
  lemma {:induction false} BigEndianBits(bs: seq<byte>)
    ensures NatToBits(BigEndian(bs), 8 * |bs|) == BytesToBits(bs)
  {
    if |bs| > 0 {
      var init := bs[..|bs| - 1];
      BigEndianBits(init);
      Pow2Of8();
      NatToBitsConcat(BigEndian(init), bs[|bs| - 1], 8 * |init|, 8);
    }
  }

  lemma {:induction false} BytesToBitsAppend(a: seq<byte>, b: seq<byte>)
    ensures BytesToBits(a + b) == BytesToBits(a) + BytesToBits(b)
  {
    if |b| == 0 {
      assert a + b == a;
    } else {
      var b' := b[..|b| - 1];
      assert (a + b)[..|a + b| - 1] == a + b';
      BytesToBitsAppend(a, b');
    }
  }

  /** A key of the 128-bit keyspace. */
  type Key = k: seq<bool> | |k| == 128 witness NatToBits(0, 128)

  /** `uint128.New(lo, hi)`: the 64-bit halves, high half first. */
  function FromHiLo(hi: nat, lo: nat): Key
  {
    NatToBits(hi, 64) + NatToBits(lo, 64)
  }

  /** A key built from two halves reads back as `hi * 2^64 + lo`. */
  lemma FromHiLoValue(hi: nat, lo: nat)
    requires hi < TWO_64 && lo < TWO_64
    ensures BitsToNat(FromHiLo(hi, lo)) == hi * TWO_64 + lo
  {
    Pow2Of64();
    Pow2Add(64, 64);
    assert hi * TWO_64 + lo < TWO_64 * TWO_64;
    NatToBitsConcat(hi, lo, 64, 64);
    BitsRoundTrip(hi * TWO_64 + lo, 128);
  }

  lemma Pow2Of8()
    ensures Pow2(8) == 256
  {
  }

  lemma Pow2Of16()
    ensures Pow2(16) == 0x1_0000
  {
    Pow2Of8();
    Pow2Add(8, 8);
  }

  lemma Pow2Of32()
    ensures Pow2(32) == 0x1_0000_0000
  {
    Pow2Of16();
    Pow2Add(16, 16);
  }

  lemma Pow2Of64()
    ensures Pow2(64) == TWO_64
  {
    Pow2Of32();
    Pow2Add(32, 32);
  }

  lemma {:induction false} Pow2Add(a: nat, b: nat)
    ensures Pow2(a + b) == Pow2(a) * Pow2(b)
  {
    if a > 0 {
      Pow2Add(a - 1, b);
    }
  }

  /** Bitwise exclusive or over the positions both strings have. */
  function Xor(a: seq<bool>, b: seq<bool>): (r: seq<bool>)
    ensures |r| == if |a| <= |b| then |a| else |b|
  {
    var n := if |a| <= |b| then |a| else |b|;
    seq(n, i requires 0 <= i < n => a[i] != b[i])
  }

  /** The number of leading false bits. */
  function LeadingZeros(x: seq<bool>): (r: nat)
    ensures r <= |x|
    ensures forall i :: 0 <= i < r ==> !x[i]
    ensures r < |x| ==> x[r]
  {
    if |x| == 0 then 0 else if x[0] then 0 else 1 + LeadingZeros(x[1..])
  }

  /** `matchingPrefix(l, r)`: the leading zeros of `l ^ r`, which is the
    * length of the longest common prefix of the two keys. */
  function MatchingPrefix(l: seq<bool>, r: seq<bool>): (m: nat)
    ensures m <= |l| && m <= |r|
    ensures forall i :: 0 <= i < m ==> l[i] == r[i]
    ensures m < |l| && m < |r| ==> l[m] != r[m]
  {
    var x := Xor(l, r);
    var m := LeadingZeros(x);
    assert forall i :: 0 <= i < m ==> l[i] == r[i] by {
      forall i | 0 <= i < m ensures l[i] == r[i] {
        assert !x[i];
      }
    }
    m
  }

  /** a and b have the same first n bits. */
  predicate Agree(a: seq<bool>, b: seq<bool>, n: nat)
  {
    n <= |a| && n <= |b| && forall i :: 0 <= i < n ==> a[i] == b[i]
  }

  /** The bit at index i (0 = most significant); beyond the width it reads 0,
    * as a Go shift by at least the width does. */
  function Bit(k: seq<bool>, i: nat): bool
  {
    i < |k| && k[i]
  }

  /** The common prefix is at least n long exactly when the first n bits agree. */
  lemma MatchingAgree(a: seq<bool>, b: seq<bool>, n: nat)
    ensures MatchingPrefix(a, b) >= n <==> Agree(a, b, n)
  {
  }

  lemma MatchingSymmetric(a: seq<bool>, b: seq<bool>)
    ensures MatchingPrefix(a, b) == MatchingPrefix(b, a)
  {
    var m, m' := MatchingPrefix(a, b), MatchingPrefix(b, a);
    MatchingAgree(a, b, m');
    MatchingAgree(b, a, m);
  }

  /** Two keys of one width have a full-width common prefix exactly when they are equal. */
  lemma MatchingFull(a: seq<bool>, b: seq<bool>)
    requires |a| == |b|
    ensures MatchingPrefix(a, b) == |a| <==> a == b
  {
  }

  /** The common prefix of a and c is at least as long as the shorter of
    * the common prefixes through any third string b. */
  lemma MatchingTriangle(a: seq<bool>, b: seq<bool>, c: seq<bool>, n: nat)
    requires MatchingPrefix(a, b) >= n && MatchingPrefix(b, c) >= n
    ensures MatchingPrefix(a, c) >= n
  {
    MatchingAgree(a, b, n);
    MatchingAgree(b, c, n);
    MatchingAgree(a, c, n);
  }

  /** The common prefix of two strings that are split at the same width. */
  lemma MatchingConcat(a1: seq<bool>, b1: seq<bool>, a2: seq<bool>, b2: seq<bool>)
    requires |a1| == |a2|
    ensures MatchingPrefix(a1 + b1, a2 + b2)
         == if a1 == a2 then |a1| + MatchingPrefix(b1, b2) else MatchingPrefix(a1, a2)
  {
    var x, y := a1 + b1, a2 + b2;
    if a1 == a2 {
      var mb := MatchingPrefix(b1, b2);
      MatchingAgree(x, y, |a1| + mb);
      if mb < |b1| && mb < |b2| {
        assert x[|a1| + mb] != y[|a1| + mb];
      }
    } else {
      var ma := MatchingPrefix(a1, a2);
      MatchingAgree(x, y, ma);
      assert x[ma] == a1[ma] && y[ma] == a2[ma];
    }
  }
}
