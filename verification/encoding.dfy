/**
 * The 128-bit encoding of addresses and networks in numeric terms, as the
 * Go code states it with `uint128.New(lo, hi)`, and the worked values that
 * ipset_test.go and tree_test.go check `nodeFromNet` and `matchingPrefix`
 * against. A network is given here as `net.ParseCIDR` leaves it: the
 * address already masked and the mask reported by `Mask.Size()`.
 */
module Encoding {
  import opened Results
  import opened Machine
  import opened Bits
  import opened IPSet

  /** Four more bytes shift a big-endian value up by 32 bits. */
  lemma BigEndianAppend4(a: seq<byte>, ip: seq<byte>)
    requires |ip| == 4
    ensures BigEndian(a + ip) == BigEndian(a) * TWO_32 + BigEndian(ip)
  {
    var b0, b1, b2, b3 := ip[0], ip[1], ip[2], ip[3];
    assert ip == [b0, b1, b2, b3];
    BigEndianSnoc(a, b0);
    BigEndianSnoc(a + [b0], b1);
    BigEndianSnoc(a + [b0] + [b1], b2);
    BigEndianSnoc(a + [b0] + [b1] + [b2], b3);
    assert a + [b0] + [b1] + [b2] + [b3] == a + ip;
    BigEndian4(b0, b1, b2, b3);
  }

  /** An IPv4 address becomes the key with high half 0 and low half
    * `0xffff_xxxx_xxxx`, x being the address read big-endian. */
  lemma EncodeV4Value(ip: seq<byte>)
    requires |ip| == 4
    ensures Uint128FromIP(ip) == Ok(FromHiLo(0, 0xffff * TWO_32 + BigEndian(ip)))
  {
    MappedHalves();
    var v6 := V4_IN_V6 + ip;
    assert v6[..8] == V4_IN_V6[..8];
    assert v6[8..] == V4_IN_V6[8..] + ip;
    BigEndianAppend4(V4_IN_V6[8..], ip);
  }

  /** The two halves of the mapped prefix: eight zero bytes, then
    * `00 00 ff ff`. */
  lemma MappedHalves()
    ensures BigEndian(V4_IN_V6[..8]) == 0 && BigEndian(V4_IN_V6[8..]) == 0xffff
  {
    var zeros: seq<byte> := [0, 0, 0, 0, 0, 0, 0, 0];
    assert V4_IN_V6[..8] == zeros;
    assert BigEndian(zeros) == 0 by {
      BigEndianZeros(zeros);
    }
    assert V4_IN_V6[8..] == [0, 0, 0xff, 0xff];
    BigEndian4(0, 0, 0xff, 0xff);
  }

  /** The leaf of an IPv6 network: its halves read big-endian, and the mask
    * length unchanged. */
  lemma NodeFromNetV6(ip: seq<byte>, ones: nat, hi: nat, lo: nat)
    requires |ip| == 16 && ones < TWO_32
    requires BigEndian(ip[..8]) == hi && BigEndian(ip[8..]) == lo
    ensures NodeFromNet(Some(IPNet(ip, ones, 128))) == Ok(Leaf(FromHiLo(hi, lo), ones))
  {
  }

  /** The leaf of an IPv4 network: the mapped key, and the mask length moved
    * past the 96 bits of the mapped prefix. */
  lemma NodeFromNetV4(ip: seq<byte>, ones: nat, lo: nat)
    requires |ip| == 4 && ones <= 32
    requires 0xffff * TWO_32 + BigEndian(ip) == lo
    ensures NodeFromNet(Some(IPNet(ip, ones, 32))) == Ok(Leaf(FromHiLo(0, lo), 96 + ones))
  {
    EncodeV4Value(ip);
  }

  /** `ContainsRawIPv4(x)` asks for the IPv4-mapped key of x. */
  lemma ContainsRawIPv4Key(s: IPSet, x: u32)
    ensures ContainsRawIPv4(s, x)
        <==> s.root.Some? && ContainsAt(s.root.value, 0, FromHiLo(0, 0xffff * TWO_32 + x))
  {
    var ip := PutBigEndian(x, 4);
    assert BigEndian(ip) == x by {
      assert Pow256(4) == TWO_32;
      ReadAfterWrite(x, 4);
    }
    EncodeV4Value(ip);
    QueryOfKey(s, ip, FromHiLo(0, 0xffff * TWO_32 + x));
  }

  /** The query for an address whose key is k. */
  lemma QueryOfKey(s: IPSet, ip: seq<byte>, k: Key)
    requires Uint128FromIP(ip) == Ok(k)
    ensures Contains(s, ip) <==> s.root.Some? && ContainsAt(s.root.value, 0, k)
  {
  }

  /** `ContainsRawIPv4` of the big-endian value of four bytes is `Contains`
    * of those bytes. */
  lemma ContainsRawIPv4Bytes(s: IPSet, ip: seq<byte>)
    requires |ip| == 4
    ensures BigEndian(ip) < TWO_32 && ContainsRawIPv4(s, BigEndian(ip)) == Contains(s, ip)
  {
    assert Pow256(4) == TWO_32;
    WriteAfterRead(ip);
  }

  /** 127.0.0.0/24 is the leaf `uint128.New(0xffff7f000000, 0)` of length 120. */
  lemma NodeFromNetV4Slash24()
    ensures NodeFromNet(Some(IPNet([127, 0, 0, 0], 24, 32)))
         == Ok(Leaf(FromHiLo(0, 0xffff7f000000), 120))
  {
    BigEndian4(127, 0, 0, 0);
    NodeFromNetV4([127, 0, 0, 0], 24, 0xffff7f000000);
  }

  /** 255.255.0.0/16 is the leaf `uint128.New(0xffffffff0000, 0)` of length 112. */
  lemma NodeFromNetV4Slash16()
    ensures NodeFromNet(Some(IPNet([255, 255, 0, 0], 16, 32)))
         == Ok(Leaf(FromHiLo(0, 0xffffffff0000), 112))
  {
    BigEndian4(255, 255, 0, 0);
    NodeFromNetV4([255, 255, 0, 0], 16, 0xffffffff0000);
  }

  /** ffff::ffff:ffff/120, masked to ffff::ffff:ff00, is the leaf
    * `uint128.New(0xffffff00, 0xffff000000000000)` of length 120. */
  lemma NodeFromNetV6Slash120()
    ensures NodeFromNet(Some(IPNet([0xff, 0xff, 0, 0, 0, 0, 0, 0, 0, 0, 0, 0, 0xff, 0xff, 0xff, 0], 120, 128)))
         == Ok(Leaf(FromHiLo(0xffff000000000000, 0xffffff00), 120))
  {
    var ip: seq<byte> := [0xff, 0xff, 0, 0, 0, 0, 0, 0, 0, 0, 0, 0, 0xff, 0xff, 0xff, 0];
    assert ip[..8] == [0xff, 0xff, 0, 0, 0, 0, 0, 0];
    assert ip[8..] == [0, 0, 0, 0, 0xff, 0xff, 0xff, 0];
    BigEndian4(0xff, 0xff, 0, 0);
    BigEndian8(0xff, 0xff, 0, 0, 0, 0, 0, 0);
    BigEndian4(0, 0, 0, 0);
    BigEndian8(0, 0, 0, 0, 0xff, 0xff, 0xff, 0);
    NodeFromNetV6(ip, 120, 0xffff000000000000, 0xffffff00);
  }

  /** ffff:ffff:ffff::ffff:ffff/32, masked to ffff:ffff::, is the leaf
    * `uint128.New(0, 0xffffffff00000000)` of length 32. */
  lemma NodeFromNetV6Slash32()
    ensures NodeFromNet(Some(IPNet([0xff, 0xff, 0xff, 0xff, 0, 0, 0, 0, 0, 0, 0, 0, 0, 0, 0, 0], 32, 128)))
         == Ok(Leaf(FromHiLo(0xffffffff00000000, 0), 32))
  {
    var ip: seq<byte> := [0xff, 0xff, 0xff, 0xff, 0, 0, 0, 0, 0, 0, 0, 0, 0, 0, 0, 0];
    assert ip[..8] == [0xff, 0xff, 0xff, 0xff, 0, 0, 0, 0];
    assert ip[8..] == [0, 0, 0, 0, 0, 0, 0, 0];
    BigEndian4(0xff, 0xff, 0xff, 0xff);
    BigEndian8(0xff, 0xff, 0xff, 0xff, 0, 0, 0, 0);
    BigEndian4(0, 0, 0, 0);
    BigEndian8(0, 0, 0, 0, 0, 0, 0, 0);
    NodeFromNetV6(ip, 32, 0xffffffff00000000, 0);
  }

  /** The common prefix is n when the strings agree below n and differ at n. */
  lemma MatchingAt(l: seq<bool>, r: seq<bool>, n: nat)
    requires Agree(l, r, n) && n < |l| && n < |r| && l[n] != r[n]
    ensures MatchingPrefix(l, r) == n
  {
    MatchingAgree(l, r, n);
    MatchingAgree(l, r, n + 1);
  }

  /** Distinct values below 2^w have distinct w-bit expansions. */
  lemma NatToBitsInjective(a: nat, b: nat, w: nat)
    requires a < Pow2(w) && b < Pow2(w) && a != b
    ensures NatToBits(a, w) != NatToBits(b, w)
  {
    BitsRoundTrip(a, w);
    BitsRoundTrip(b, w);
  }

  /** Comparing two keys: equal high halves leave the comparison to the low halves. */
  lemma MatchingHiLo(h1: nat, l1: nat, h2: nat, l2: nat)
    requires h1 < TWO_64 && l1 < TWO_64 && h2 < TWO_64 && l2 < TWO_64
    ensures MatchingPrefix(FromHiLo(h1, l1), FromHiLo(h2, l2))
         == if h1 == h2 then 64 + MatchingPrefix(NatToBits(l1, 64), NatToBits(l2, 64))
            else MatchingPrefix(NatToBits(h1, 64), NatToBits(h2, 64))
  {
    MatchingConcat(NatToBits(h1, 64), NatToBits(l1, 64), NatToBits(h2, 64), NatToBits(l2, 64));
    if h1 != h2 {
      Pow2Of64();
      NatToBitsInjective(h1, h2, 64);
    }
  }

  /** Values that differ in their top w bits and are zero below them: the
    * common prefix is that of the top bits. */
  lemma MatchingTop(a: nat, b: nat, w: nat, v: nat)
    requires a < Pow2(w) && b < Pow2(w) && a != b
    ensures MatchingPrefix(NatToBits(a * Pow2(v), w + v), NatToBits(b * Pow2(v), w + v))
         == MatchingPrefix(NatToBits(a, w), NatToBits(b, w))
  {
    NatToBitsConcat(a, 0, w, v);
    NatToBitsConcat(b, 0, w, v);
    NatToBitsInjective(a, b, w);
    MatchingConcat(NatToBits(a, w), NatToBits(0, v), NatToBits(b, w), NatToBits(0, v));
  }

  /** Values below 2^v, widened by w leading zeros: the zeros all match. */
  lemma MatchingLow(a: nat, b: nat, w: nat, v: nat)
    requires a < Pow2(v) && b < Pow2(v)
    ensures MatchingPrefix(NatToBits(a, w + v), NatToBits(b, w + v))
         == w + MatchingPrefix(NatToBits(a, v), NatToBits(b, v))
  {
    NatToBitsConcat(0, a, w, v);
    NatToBitsConcat(0, b, w, v);
    MatchingConcat(NatToBits(0, w), NatToBits(a, v), NatToBits(0, w), NatToBits(b, v));
  }

  lemma Pow2Of60()
    ensures Pow2(60) == 0x1000_0000_0000_0000
  {
    Pow2Of64();
    Pow2Add(60, 4);
  }

  lemma Pow2Of48()
    ensures Pow2(48) == 0x1_0000_0000_0000
  {
    Pow2Of64();
    Pow2Of16();
    Pow2Add(48, 16);
  }

  /** 64-bit values whose top nibbles differ and whose other bits are zero. */
  lemma MatchingTopNibble(a: nat, b: nat)
    requires a < 16 && b < 16 && a != b
    ensures MatchingPrefix(NatToBits(a * 0x1000_0000_0000_0000, 64), NatToBits(b * 0x1000_0000_0000_0000, 64))
         == MatchingPrefix(NatToBits(a, 4), NatToBits(b, 4))
  {
    Pow2Of60();
    MatchingTop(a, b, 4, 60);
  }

  /** Keys whose only set bits are a top nibble of the high half, a and
    * b, first differing at bit n of the nibble. */
  lemma HighNibbles(a: nat, b: nat, n: nat)
    requires a < 16 && b < 16 && n < 4
    requires Agree(NatToBits(a, 4), NatToBits(b, 4), n) && NatToBits(a, 4)[n] != NatToBits(b, 4)[n]
    ensures MatchingPrefix(FromHiLo(a * 0x1000_0000_0000_0000, 0), FromHiLo(b * 0x1000_0000_0000_0000, 0)) == n
  {
    MatchingHiLo(a * 0x1000_0000_0000_0000, 0, b * 0x1000_0000_0000_0000, 0);
    MatchingTopNibble(a, b);
    MatchingAt(NatToBits(a, 4), NatToBits(b, 4), n);
  }

  /** Keys whose only set bits are a top nibble of the low half. */
  lemma LowNibbles(a: nat, b: nat, n: nat)
    requires a < 16 && b < 16 && n < 4
    requires Agree(NatToBits(a, 4), NatToBits(b, 4), n) && NatToBits(a, 4)[n] != NatToBits(b, 4)[n]
    ensures MatchingPrefix(FromHiLo(0, a * 0x1000_0000_0000_0000), FromHiLo(0, b * 0x1000_0000_0000_0000)) == 64 + n
  {
    MatchingHiLo(0, a * 0x1000_0000_0000_0000, 0, b * 0x1000_0000_0000_0000);
    MatchingTopNibble(a, b);
    MatchingAt(NatToBits(a, 4), NatToBits(b, 4), n);
  }

  /** `0xf0…` against `0x80…` in the high half: 1. */
  lemma MatchingVector1()
    ensures MatchingPrefix(FromHiLo(0xf000000000000000, 0), FromHiLo(0x8000000000000000, 0)) == 1
  {
    assert NatToBits(15, 4) == [true, true, true, true];
    assert NatToBits(8, 4) == [true, false, false, false];
    HighNibbles(15, 8, 1);
  }

  /** `0xf0…` against `0xc0…` in the high half: 2. */
  lemma MatchingVector2()
    ensures MatchingPrefix(FromHiLo(0xf000000000000000, 0), FromHiLo(0xc000000000000000, 0)) == 2
  {
    assert NatToBits(15, 4) == [true, true, true, true];
    assert NatToBits(12, 4) == [true, true, false, false];
    HighNibbles(15, 12, 2);
  }

  /** `0xf0…` against `0xe0…` in the high half: 3. */
  lemma MatchingVector3()
    ensures MatchingPrefix(FromHiLo(0xf000000000000000, 0), FromHiLo(0xe000000000000000, 0)) == 3
  {
    assert NatToBits(15, 4) == [true, true, true, true];
    assert NatToBits(14, 4) == [true, true, true, false];
    HighNibbles(15, 14, 3);
  }

  /** `0xf0…` against `0x40…` in the low half: 64. */
  lemma MatchingVector64()
    ensures MatchingPrefix(FromHiLo(0, 0xf000000000000000), FromHiLo(0, 0x4000000000000000)) == 64
  {
    assert NatToBits(15, 4) == [true, true, true, true];
    assert NatToBits(4, 4) == [false, true, false, false];
    LowNibbles(15, 4, 0);
  }

  /** `0xf0…` against `0x80…` in the low half: 65. */
  lemma MatchingVector65()
    ensures MatchingPrefix(FromHiLo(0, 0xf000000000000000), FromHiLo(0, 0x8000000000000000)) == 65
  {
    assert NatToBits(15, 4) == [true, true, true, true];
    assert NatToBits(8, 4) == [true, false, false, false];
    LowNibbles(15, 8, 1);
  }

  /** Two 16-bit values whose high bytes are equal and whose low bytes
    * first differ at bit n. */
  lemma MatchingLowByte(a: byte, b: byte, d: byte, n: nat, x: nat, y: nat)
    requires n < 8 && Agree(NatToBits(b, 8), NatToBits(d, 8), n) && NatToBits(b, 8)[n] != NatToBits(d, 8)[n]
    requires x == a * 256 + b && y == a * 256 + d
    ensures MatchingPrefix(NatToBits(x, 16), NatToBits(y, 16)) == 8 + n
  {
    Pow2Of8();
    var hb, lb, ld := NatToBits(a, 8), NatToBits(b, 8), NatToBits(d, 8);
    assert NatToBits(x, 16) == hb + lb by {
      NatToBitsConcat(a, b, 8, 8);
    }
    assert NatToBits(y, 16) == hb + ld by {
      NatToBitsConcat(a, d, 8, 8);
    }
    MatchingConcat(hb, lb, hb, ld);
    MatchingAt(lb, ld, n);
  }

  /** `0xffff` against `0xff00` at 16 bits: the first byte matches, the second does not. */
  lemma MatchingFfffFf00()
    ensures MatchingPrefix(NatToBits(0xffff, 16), NatToBits(0xff00, 16)) == 8
  {
    Pow2Of8();
    TopBit(0xff, 8);
    TopBit(0, 8);
    MatchingLowByte(0xff, 0xff, 0, 0, 0xffff, 0xff00);
  }

  /** The leading bit of a w-bit value is set exactly from `2^(w-1)` up. */
  lemma {:induction false} TopBit(x: nat, w: nat)
    requires 0 < w && x < Pow2(w)
    ensures NatToBits(x, w)[0] == (x >= Pow2(w - 1))
  {
    if w > 1 {
      TopBit(x / 2, w - 1);
      assert NatToBits(x, w)[0] == NatToBits(x / 2, w - 1)[0];
    }
  }

  /** `0xffff…` against `0xff00…` in the high half: 8. */
  lemma MatchingVector8()
    ensures MatchingPrefix(FromHiLo(0xffff000000000000, 0), FromHiLo(0xff00000000000000, 0)) == 8
  {
    MatchingHiLo(0xffff000000000000, 0, 0xff00000000000000, 0);
    Pow2Of16();
    Pow2Of48();
    MatchingTop(0xffff, 0xff00, 16, 48);
    MatchingFfffFf00();
  }

  /** `0xffff` against `0xff00` at the bottom of the high half: 56. */
  lemma MatchingVector56()
    ensures MatchingPrefix(FromHiLo(0xffff, 0), FromHiLo(0xff00, 0)) == 56
  {
    MatchingHiLo(0xffff, 0, 0xff00, 0);
    Pow2Of16();
    MatchingLow(0xffff, 0xff00, 48, 16);
    MatchingFfffFf00();
  }

  /** 1 against 0 at 64 bits: only the last bit differs. */
  lemma MatchingOneZero()
    ensures MatchingPrefix(NatToBits(1, 64), NatToBits(0, 64)) == 63
  {
    MatchingLow(1, 0, 63, 1);
    MatchingAt(NatToBits(1, 1), NatToBits(0, 1), 0);
  }

  /** High halves 1 and 0: 63, whatever the low halves. */
  lemma MatchingVector63(lo1: nat, lo2: nat)
    requires lo1 < TWO_64 && lo2 < TWO_64
    ensures MatchingPrefix(FromHiLo(1, lo1), FromHiLo(0, lo2)) == 63
  {
    MatchingHiLo(1, lo1, 0, lo2);
    MatchingOneZero();
  }

  /** Low halves 1 and 0: 127. */
  lemma MatchingVector127()
    ensures MatchingPrefix(FromHiLo(0, 1), FromHiLo(0, 0)) == 127
  {
    MatchingHiLo(0, 1, 0, 0);
    MatchingOneZero();
  }

  /** Equal keys: 128. */
  lemma MatchingVector128()
    ensures MatchingPrefix(FromHiLo(0, 0), FromHiLo(0, 0)) == 128
  {
    MatchingFull(FromHiLo(0, 0), FromHiLo(0, 0));
  }
}
