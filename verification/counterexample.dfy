/**
 * The strict subsume guard of ipset.go at work: after 10.0.0.0/24 and
 * 10.128.0.0/24, adding 10.0.0.0/8 reaches the fork that ends at bit
 * 96 + 8, whose extent equals the new mask length. The network descends
 * into the left child only, which becomes a zero-length leaf, and the
 * address 10.200.0.1 of the /8, which lies on the right, is no longer
 * found. Added in order of mask length, or with the corrected insertion,
 * the same networks give a set that holds it.
 */
module Counterexample {
  import opened Results
  import opened Machine
  import opened Bits
  import opened IPSet
  import opened IPSetShape
  import opened Corrected
  import opened IPSetSoundness

  /** The eight bits of a byte. */
  function B(x: byte): seq<bool>
  {
    NatToBits(x, 8)
  }

  /** The key of the IPv4 address a.b.c.d. */
  function Key4(a: byte, b: byte, c: byte, d: byte): Key
  {
    BytesToBits(V4_IN_V6) + (B(a) + (B(b) + (B(c) + B(d))))
  }

  /** The network a.b.c.d/ones with a 32-bit mask. */
  function Net4(a: byte, b: byte, c: byte, d: byte, ones: nat): Option<IPNet>
  {
    Some(IPNet([a, b, c, d], ones, 32))
  }

  /** The bits of four bytes, byte by byte. */
  lemma BytesToBits4(a: byte, b: byte, c: byte, d: byte)
    ensures BytesToBits([a, b, c, d]) == B(a) + (B(b) + (B(c) + B(d)))
  {
    assert BytesToBits([a]) == B(a) by {
      assert [a][..0] == [];
    }
    assert BytesToBits([a, b]) == B(a) + B(b) by {
      assert [a, b][..1] == [a];
    }
    assert BytesToBits([a, b, c]) == B(a) + B(b) + B(c) by {
      assert [a, b, c][..2] == [a, b];
    }
    assert BytesToBits([a, b, c, d]) == B(a) + B(b) + B(c) + B(d) by {
      assert [a, b, c, d][..3] == [a, b, c];
    }
    assert B(a) + B(b) + B(c) + B(d) == B(a) + (B(b) + (B(c) + B(d)));
  }

  /** An IPv4 address encodes to its key. */
  lemma EncodeV4(a: byte, b: byte, c: byte, d: byte)
    ensures Uint128FromIP([a, b, c, d]) == Ok(Key4(a, b, c, d))
  {
    Uint128FromIPBits([a, b, c, d]);
    BytesToBits4(a, b, c, d);
  }

  /** a.b.c.d/ones encodes to the leaf for its key, 96 + ones long. */
  lemma EncodeNet4(a: byte, b: byte, c: byte, d: byte, ones: nat)
    requires ones <= 32
    ensures NodeFromNet(Net4(a, b, c, d, ones)) == Ok(Leaf(Key4(a, b, c, d), 96 + ones))
    ensures Fits(Net4(a, b, c, d, ones)) && MaskLen(Net4(a, b, c, d, ones)) == 96 + ones
  {
    EncodeV4(a, b, c, d);
  }

  /** Distinct bytes have distinct bit strings. */
  lemma BInjective(x: byte, y: byte)
    requires x != y
    ensures B(x) != B(y)
  {
    Pow2Of8();
    BitsRoundTrip(x, 8);
    BitsRoundTrip(y, 8);
  }

  /** The common prefix of two bit strings that begin with bytes. */
  lemma MatchingByte(x: byte, s: seq<bool>, y: byte, t: seq<bool>)
    ensures MatchingPrefix(B(x) + s, B(y) + t)
         == if x == y then 8 + MatchingPrefix(s, t) else MatchingPrefix(B(x), B(y))
  {
    if x != y {
      BInjective(x, y);
    }
    MatchingConcat(B(x), s, B(y), t);
  }

  /** The common prefix of two IPv4 keys is 96 plus that of the addresses. */
  lemma MatchingV4(a1: byte, b1: byte, c1: byte, d1: byte, a2: byte, b2: byte, c2: byte, d2: byte)
    ensures MatchingPrefix(Key4(a1, b1, c1, d1), Key4(a2, b2, c2, d2))
         == 96 + MatchingPrefix(B(a1) + (B(b1) + (B(c1) + B(d1))), B(a2) + (B(b2) + (B(c2) + B(d2))))
  {
    MatchingConcat(BytesToBits(V4_IN_V6), B(a1) + (B(b1) + (B(c1) + B(d1))),
                   BytesToBits(V4_IN_V6), B(a2) + (B(b2) + (B(c2) + B(d2))));
  }

  lemma ByteValues()
    ensures B(0) == [false, false, false, false, false, false, false, false]
    ensures B(128) == [true, false, false, false, false, false, false, false]
    ensures B(200) == [true, true, false, false, true, false, false, false]
  {
    ByteZero();
    Byte128();
    Byte200();
  }

  lemma ByteZero()
    ensures B(0) == [false, false, false, false, false, false, false, false]
  {
  }

  lemma Byte128()
    ensures B(128) == [true, false, false, false, false, false, false, false]
  {
  }

  lemma Byte200()
    ensures B(200) == [true, true, false, false, true, false, false, false]
  {
  }

  lemma ByteMatches()
    ensures MatchingPrefix(B(128), B(0)) == 0
    ensures MatchingPrefix(B(200), B(0)) == 0
    ensures MatchingPrefix(B(200), B(128)) == 1
  {
    ByteValues();
    MatchingAgree(B(200), B(128), 1);
  }

  /** The keys of the example: 10.0.0.0, 10.128.0.0 and 10.200.0.1. */
  lemma ExampleMatches()
    ensures MatchingPrefix(Key4(10, 128, 0, 0), Key4(10, 0, 0, 0)) == 104
    ensures MatchingPrefix(Key4(10, 0, 0, 0), Key4(10, 0, 0, 0)) == 128
    ensures MatchingPrefix(Key4(10, 200, 0, 1), Key4(10, 0, 0, 0)) == 104
    ensures MatchingPrefix(Key4(10, 200, 0, 1), Key4(10, 128, 0, 0)) == 105
  {
    MatchingFull(Key4(10, 0, 0, 0), Key4(10, 0, 0, 0));
    SlashEightApart();
    QueryMatches();
  }

  /** 10.128.0.0 parts from 10.0.0.0 at the top bit of the second byte. */
  lemma SlashEightApart()
    ensures MatchingPrefix(Key4(10, 128, 0, 0), Key4(10, 0, 0, 0)) == 104
  {
    ByteMatches();
    MatchingV4(10, 128, 0, 0, 10, 0, 0, 0);
    MatchingByte(10, B(128) + (B(0) + B(0)), 10, B(0) + (B(0) + B(0)));
    MatchingByte(128, B(0) + B(0), 0, B(0) + B(0));
  }

  /** 10.200.0.1 parts from 10.0.0.0 at bit 104 and from 10.128.0.0 at 105. */
  lemma QueryMatches()
    ensures MatchingPrefix(Key4(10, 200, 0, 1), Key4(10, 0, 0, 0)) == 104
    ensures MatchingPrefix(Key4(10, 200, 0, 1), Key4(10, 128, 0, 0)) == 105
  {
    ByteMatches();
    MatchingV4(10, 200, 0, 1, 10, 0, 0, 0);
    MatchingByte(10, B(200) + (B(0) + B(1)), 10, B(0) + (B(0) + B(0)));
    MatchingByte(200, B(0) + B(1), 0, B(0) + B(0));
    MatchingV4(10, 200, 0, 1, 10, 128, 0, 0);
    MatchingByte(10, B(200) + (B(0) + B(1)), 10, B(128) + (B(0) + B(0)));
    MatchingByte(200, B(0) + B(1), 128, B(0) + B(0));
  }

  /** Bit 104 of an IPv4 key is the top bit of the address's second byte. */
  lemma SecondByteTopBit(a: byte, b: byte, c: byte, d: byte)
    ensures Bit(Key4(a, b, c, d), 104) == B(b)[0]
  {
  }

  /** The insertions of the example, with the keys abstracted to the
    * facts that decide them: the /24s meet at bit 104, where 10.0.0.0 has
    * a 0. */
  lemma ExampleInsertions(kA: Key, kB: Key)
    requires MatchingPrefix(kB, kA) == 104 && !Bit(kA, 104)
    ensures InsertAt(Leaf(kA, 120), 0, kB, 120) == Fork(kA, 104, Leaf(kA, 16), Leaf(kB, 16))
    ensures InsertAt(Fork(kA, 104, Leaf(kA, 16), Leaf(kB, 16)), 0, kA, 104)
         == Fork(kA, 104, Leaf(kA, 0), Leaf(kB, 16))
  {
    MatchingFull(kA, kA);
    assert InsertAt(Leaf(kA, 16), 104, kA, 104) == Leaf(kA, 0);
  }

  /** The query of the example leaves the fork to the right and then
    * leaves the right leaf at bit 105, before its extent 120. */
  lemma ExampleQuery(kA: Key, kB: Key, q: Key)
    requires MatchingPrefix(q, kA) == 104 && Bit(q, 104) && MatchingPrefix(q, kB) == 105
    ensures !ContainsAt(Fork(kA, 104, Leaf(kA, 0), Leaf(kB, 16)), 0, q)
  {
    assert !ContainsAt(Leaf(kB, 16), 104, q);
  }

  /** `AddAll` adds the first network, then the rest. */
  lemma AddAllCons(s: IPSet, cidrs: seq<Option<IPNet>>)
    requires |cidrs| > 0 && Valid(cidrs[0])
    ensures AddAll(s, cidrs) == AddAll(Add(s, cidrs[0]).value, cidrs[1..])
  {
  }

  /** `NewSet` of three networks that can all be added is three `Add`s. */
  lemma NewSetOfThree(a: Option<IPNet>, b: Option<IPNet>, c: Option<IPNet>)
    requires Valid(a) && Valid(b) && Valid(c)
    ensures NewSet([a, b, c]) == Add(Add(Add(IPSet(None), a).value, b).value, c)
  {
    var s1 := Add(IPSet(None), a).value;
    var s2 := Add(s1, b).value;
    AddAllCons(IPSet(None), [a, b, c]);
    assert [a, b, c][1..] == [b, c];
    AddAllCons(s1, [b, c]);
    assert [b, c][1..] == [c];
    AddAllCons(s2, [c]);
    assert [c][1..] == [];
  }

  /** A network of the list holds the address, so a set that holds
    * exactly the addresses of the list's networks holds it. */
  lemma ListedAddressFound(cidrs: seq<Option<IPNet>>, ip: seq<byte>, i: nat)
    requires AllFit(cidrs) && i < |cidrs| && InNet(cidrs[i], ip)
    ensures Ascending(cidrs) ==> NewSet(cidrs).Ok? && Contains(NewSet(cidrs).value, ip)
    ensures NewSetFixed(cidrs).Ok? && Contains(NewSetFixed(cidrs).value, ip)
  {
    if Ascending(cidrs) {
      NewSetSound(cidrs);
    }
    NewSetFixedSound(cidrs);
  }

  /** The address 10.200.0.1 lies in 10.0.0.0/8, yet the set built from
    * 10.0.0.0/24, 10.128.0.0/24 and 10.0.0.0/8 in that order does not
    * contain it. */
  lemma StrictGuardLosesAddress()
    ensures InNet(Net4(10, 0, 0, 0, 8), [10, 200, 0, 1])
    ensures NewSet([Net4(10, 0, 0, 0, 24), Net4(10, 128, 0, 0, 24), Net4(10, 0, 0, 0, 8)]).Ok?
    ensures !Contains(NewSet([Net4(10, 0, 0, 0, 24), Net4(10, 128, 0, 0, 24), Net4(10, 0, 0, 0, 8)]).value, [10, 200, 0, 1])
  {
    var kA, kB, q := Key4(10, 0, 0, 0), Key4(10, 128, 0, 0), Key4(10, 200, 0, 1);
    EncodeNet4(10, 0, 0, 0, 24);
    EncodeNet4(10, 128, 0, 0, 24);
    EncodeNet4(10, 0, 0, 0, 8);
    EncodeV4(10, 200, 0, 1);
    ExampleMatches();
    ByteValues();
    SecondByteTopBit(10, 0, 0, 0);
    SecondByteTopBit(10, 200, 0, 1);
    MatchingAgree(q, kA, 104);
    ExampleInsertions(kA, kB);
    ExampleQuery(kA, kB, q);
    NewSetOfThree(Net4(10, 0, 0, 0, 24), Net4(10, 128, 0, 0, 24), Net4(10, 0, 0, 0, 8));
  }

  /** The trie of the example keeps its shape but is not well formed: the
    * /8 has cut the left child of the fork at bit 104 to a zero-length
    * leaf. */
  lemma StrictGuardZeroLeaf()
    ensures var s := NewSet([Net4(10, 0, 0, 0, 24), Net4(10, 128, 0, 0, 24), Net4(10, 0, 0, 0, 8)]);
            && s.Ok?
            && s.value.root == Some(Fork(Key4(10, 0, 0, 0), 104, Leaf(Key4(10, 0, 0, 0), 0), Leaf(Key4(10, 128, 0, 0), 16)))
            && ShapedSet(s.value) && !WfSet(s.value)
  {
    var kA, kB := Key4(10, 0, 0, 0), Key4(10, 128, 0, 0);
    EncodeNet4(10, 0, 0, 0, 24);
    EncodeNet4(10, 128, 0, 0, 24);
    EncodeNet4(10, 0, 0, 0, 8);
    ExampleMatches();
    ByteValues();
    SecondByteTopBit(10, 0, 0, 0);
    ExampleInsertions(kA, kB);
    NewSetOfThree(Net4(10, 0, 0, 0, 24), Net4(10, 128, 0, 0, 24), Net4(10, 0, 0, 0, 8));
    ThreeFit(Net4(10, 0, 0, 0, 24), Net4(10, 128, 0, 0, 24), Net4(10, 0, 0, 0, 8));
    NewSetShaped([Net4(10, 0, 0, 0, 24), Net4(10, 128, 0, 0, 24), Net4(10, 0, 0, 0, 8)]);
  }

  lemma ThreeFit(x: Option<IPNet>, y: Option<IPNet>, z: Option<IPNet>)
    requires Fits(x) && Fits(y) && Fits(z)
    ensures AllFit([x, y, z])
  {
  }

  lemma ThreeAscending(x: Option<IPNet>, y: Option<IPNet>, z: Option<IPNet>)
    requires MaskLen(x) <= MaskLen(y) <= MaskLen(z)
    ensures Ascending([x, y, z])
  {
  }

  /** The three networks of the example fit the keyspace; listed with the
    * /8 first they are in order of mask length. */
  lemma ExampleNetworks(x: Option<IPNet>, y: Option<IPNet>, z: Option<IPNet>)
    requires x == Net4(10, 0, 0, 0, 8) && y == Net4(10, 0, 0, 0, 24) && z == Net4(10, 128, 0, 0, 24)
    ensures AllFit([y, z, x]) && AllFit([x, y, z]) && Ascending([x, y, z])
  {
    EncodeNet4(10, 0, 0, 0, 8);
    EncodeNet4(10, 0, 0, 0, 24);
    EncodeNet4(10, 128, 0, 0, 24);
    ThreeFit(y, z, x);
    ThreeFit(x, y, z);
    ThreeAscending(x, y, z);
  }

  /** Added with the /8 first, in order of mask length, the same networks
    * give a set that contains 10.200.0.1; so does the corrected insertion
    * in the order of the example. */
  lemma OtherOrdersKeepAddress()
    ensures NewSet([Net4(10, 0, 0, 0, 8), Net4(10, 0, 0, 0, 24), Net4(10, 128, 0, 0, 24)]).Ok?
    ensures Contains(NewSet([Net4(10, 0, 0, 0, 8), Net4(10, 0, 0, 0, 24), Net4(10, 128, 0, 0, 24)]).value, [10, 200, 0, 1])
    ensures NewSetFixed([Net4(10, 0, 0, 0, 24), Net4(10, 128, 0, 0, 24), Net4(10, 0, 0, 0, 8)]).Ok?
    ensures Contains(NewSetFixed([Net4(10, 0, 0, 0, 24), Net4(10, 128, 0, 0, 24), Net4(10, 0, 0, 0, 8)]).value, [10, 200, 0, 1])
  {
    var x, y, z := Net4(10, 0, 0, 0, 8), Net4(10, 0, 0, 0, 24), Net4(10, 128, 0, 0, 24);
    ExampleNetworks(x, y, z);
    StrictGuardLosesAddress();
    ListedAddressFound([x, y, z], [10, 200, 0, 1], 0);
    ListedAddressFound([y, z, x], [10, 200, 0, 1], 2);
  }
}
