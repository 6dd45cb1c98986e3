/**
 * Three ways the insertion loop of treeV4.go departs from its own comments
 * and from ipset.go, each on a concrete input. Adding a network equal to a
 * leaf's own fits none of the loop's cases and panics
 * (`WalkV4.AddAgainPanics`, `AddTwicePanics`). On descending, the loop
 * branches on the new address's bit at `matching`, where `Contains` reads
 * the bit after the fork's extent: after 10.0.0.0/24, 10.128.0.0/24 and
 * 10.0.1.0/24, the address 10.0.1.5 is not found. And the subsume guard
 * compares `matching` with the node's own segment: after 10.0.0.0/24,
 * 10.128.0.0/24 and 10.128.128.0/20, the address 10.128.128.1 is not found
 * and 10.128.8.1 is. `CorrectedV4.InsertV4Fixed` gets all three right.
 */
module CounterexampleV4 {
  import opened Results
  import opened Machine
  import opened Bits
  import opened IPSet
  import opened Counterexample
  import opened WalkV4
  import opened CorrectedV4

  /** The 32-bit key of the IPv4 address a.b.c.d, as the arena reads it. */
  function KeyV4(a: byte, b: byte, c: byte, d: byte): seq<bool>
  {
    B(a) + (B(b) + (B(c) + B(d)))
  }

  /** The arena's `uint32` address of a.b.c.d expands to its key. */
  lemma KeyV4OfAddr(a: byte, b: byte, c: byte, d: byte)
    ensures NatToBits(BigEndian([a, b, c, d]), 32) == KeyV4(a, b, c, d)
    ensures |KeyV4(a, b, c, d)| == 32
  {
    BigEndianBits([a, b, c, d]);
    BytesToBits4(a, b, c, d);
  }

  lemma Byte1()
    ensures B(1) == [false, false, false, false, false, false, false, true]
  {
  }

  /** 0 and 1 share their first seven bits. */
  lemma ZeroOne()
    ensures MatchingPrefix(B(0), B(1)) == 7 && MatchingPrefix(B(1), B(0)) == 7
  {
    var z, o := B(0), B(1);
    ByteZero();
    Byte1();
    assert z[7] != o[7];
    MatchingAgree(z, o, 7);
    MatchingSymmetric(z, o);
  }

  /** 10.0.0.0 and 10.128.0.0 part at bit 8; 10.128.0.0 and 10.0.1.0 too. */
  lemma MatchesAt8()
    ensures MatchingPrefix(KeyV4(10, 0, 0, 0), KeyV4(10, 128, 0, 0)) == 8
    ensures MatchingPrefix(KeyV4(10, 128, 0, 0), KeyV4(10, 0, 1, 0)) == 8
  {
    ByteMatches();
    MatchingSymmetric(B(128), B(0));
    MatchingByte(10, B(0) + (B(0) + B(0)), 10, B(128) + (B(0) + B(0)));
    MatchingByte(0, B(0) + B(0), 128, B(0) + B(0));
    MatchingByte(10, B(128) + (B(0) + B(0)), 10, B(0) + (B(1) + B(0)));
    MatchingByte(128, B(0) + B(0), 0, B(1) + B(0));
  }

  /** 10.0.0.0 parts from 10.0.1.0 and from 10.0.1.5 at bit 23. */
  lemma MatchesAt23()
    ensures MatchingPrefix(KeyV4(10, 0, 0, 0), KeyV4(10, 0, 1, 0)) == 23
    ensures MatchingPrefix(KeyV4(10, 0, 1, 5), KeyV4(10, 0, 0, 0)) == 23
  {
    ZeroOne();
    MatchingByte(10, B(0) + (B(0) + B(0)), 10, B(0) + (B(1) + B(0)));
    MatchingByte(0, B(0) + B(0), 0, B(1) + B(0));
    MatchingByte(0, B(0), 1, B(0));
    MatchingByte(10, B(0) + (B(1) + B(5)), 10, B(0) + (B(0) + B(0)));
    MatchingByte(0, B(1) + B(5), 0, B(0) + B(0));
    MatchingByte(1, B(5), 0, B(0));
  }

  /** 10.0.1.5 lies in 10.0.1.0/24. */
  lemma QueryInNetwork()
    ensures MatchingPrefix(KeyV4(10, 0, 1, 5), KeyV4(10, 0, 1, 0)) >= 24
  {
    MatchingByte(10, B(0) + (B(1) + B(5)), 10, B(0) + (B(1) + B(0)));
    MatchingByte(0, B(1) + B(5), 0, B(1) + B(0));
    MatchingByte(1, B(5), 1, B(0));
  }

  /** The bits that decide the branches of the example. */
  lemma ExampleBits()
    ensures !Bit(KeyV4(10, 0, 0, 0), 8) && !Bit(KeyV4(10, 0, 0, 0), 23)
    ensures Bit(KeyV4(10, 128, 0, 0), 8)
    ensures !Bit(KeyV4(10, 0, 1, 0), 8) && Bit(KeyV4(10, 0, 1, 0), 23)
    ensures !Bit(KeyV4(10, 0, 1, 5), 8) && Bit(KeyV4(10, 0, 1, 5), 23)
  {
    ByteValues();
    Byte1();
  }

  /** The insertions and the query of the example as written, with the
    * keys abstracted to the facts that decide them. */
  lemma WrittenBranches(kA: seq<bool>, kB: seq<bool>, kC: seq<bool>, q: seq<bool>)
    requires |kA| == 32 && |kB| == 32 && |kC| == 32 && |q| == 32
    requires MatchingPrefix(kA, kB) == 8 && !Bit(kA, 8) && Bit(kB, 8)
    requires MatchingPrefix(kA, kC) == 23 && MatchingPrefix(kB, kC) == 8 && Bit(kC, 23)
    requires MatchingPrefix(q, kA) == 23 && !Bit(q, 8)
    ensures InsertV4(Leaf(kA, 24), 0, kB, 24) == Some(Fork(kA, 8, Leaf(kA, 16), Leaf(kB, 16)))
    ensures InsertV4(Fork(kA, 8, Leaf(kA, 16), Leaf(kB, 16)), 0, kC, 24)
         == Some(Fork(kA, 8, Leaf(kA, 16), Fork(kB, 0, Leaf(kC, 16), Leaf(kB, 16))))
    ensures !ContainsAt(Fork(kA, 8, Leaf(kA, 16), Fork(kB, 0, Leaf(kC, 16), Leaf(kB, 16))), 0, q)
  {
    assert InsertV4(Leaf(kB, 16), 8, kC, 24) == Some(Fork(kB, 0, Leaf(kC, 16), Leaf(kB, 16)));
    assert !ContainsAt(Leaf(kA, 16), 8, q);
  }

  /** The same with the corrected loop: 10.0.1.0/24 goes to the left,
    * where it splits 10.0.0.0/24 at bit 23, and the query finds it. */
  lemma FixedBranches(kA: seq<bool>, kB: seq<bool>, kC: seq<bool>, q: seq<bool>)
    requires |kA| == 32 && |kB| == 32 && |kC| == 32 && |q| == 32
    requires MatchingPrefix(kA, kB) == 8 && !Bit(kA, 8)
    requires MatchingPrefix(kA, kC) == 23 && !Bit(kC, 8) && !Bit(kA, 23)
    requires MatchingPrefix(q, kA) == 23 && !Bit(q, 8) && Bit(q, 23) && MatchingPrefix(q, kC) >= 24
    ensures InsertV4Fixed(Leaf(kA, 24), 0, kB, 24) == Some(Fork(kA, 8, Leaf(kA, 16), Leaf(kB, 16)))
    ensures InsertV4Fixed(Fork(kA, 8, Leaf(kA, 16), Leaf(kB, 16)), 0, kC, 24)
         == Some(Fork(kA, 8, Fork(kA, 15, Leaf(kA, 1), Leaf(kC, 1)), Leaf(kB, 16)))
    ensures ContainsAt(Fork(kA, 8, Fork(kA, 15, Leaf(kA, 1), Leaf(kC, 1)), Leaf(kB, 16)), 0, q)
  {
    assert InsertV4Fixed(Leaf(kA, 16), 8, kC, 24) == Some(Fork(kA, 15, Leaf(kA, 1), Leaf(kC, 1)));
    assert ContainsAt(Leaf(kC, 1), 23, q);
    assert ContainsAt(Fork(kA, 15, Leaf(kA, 1), Leaf(kC, 1)), 8, q);
  }

  /** 10.0.0.0/24 is the root leaf once added to an empty arena. Adding
    * 10.128.0.0/24 and then 10.0.1.0/24 with the loop as written leaves a
    * trie in which `Contains(10.0.1.5)` is false, although 10.0.1.5 lies
    * in 10.0.1.0/24; the corrected loop gives a trie that contains it. */
  lemma BranchBitLosesAddress()
    ensures var kA, kB, kC, q := KeyV4(10, 0, 0, 0), KeyV4(10, 128, 0, 0), KeyV4(10, 0, 1, 0), KeyV4(10, 0, 1, 5);
            && Agree(q, kC, 24)
            && InsertV4(Leaf(kA, 24), 0, kB, 24).Some?
            && InsertV4(InsertV4(Leaf(kA, 24), 0, kB, 24).value, 0, kC, 24).Some?
            && !ContainsAt(InsertV4(InsertV4(Leaf(kA, 24), 0, kB, 24).value, 0, kC, 24).value, 0, q)
            && InsertV4Fixed(Leaf(kA, 24), 0, kB, 24).Some?
            && InsertV4Fixed(InsertV4Fixed(Leaf(kA, 24), 0, kB, 24).value, 0, kC, 24).Some?
            && ContainsAt(InsertV4Fixed(InsertV4Fixed(Leaf(kA, 24), 0, kB, 24).value, 0, kC, 24).value, 0, q)
  {
    var kA, kB, kC, q := KeyV4(10, 0, 0, 0), KeyV4(10, 128, 0, 0), KeyV4(10, 0, 1, 0), KeyV4(10, 0, 1, 5);
    KeyV4OfAddr(10, 0, 0, 0);
    KeyV4OfAddr(10, 128, 0, 0);
    KeyV4OfAddr(10, 0, 1, 0);
    KeyV4OfAddr(10, 0, 1, 5);
    MatchesAt8();
    MatchesAt23();
    QueryInNetwork();
    MatchingAgree(q, kC, 24);
    ExampleBits();
    WrittenBranches(kA, kB, kC, q);
    FixedBranches(kA, kB, kC, q);
  }

  /** 172.17.0.0/24, the network the test of ipset_test.go:77-83 gives
    * twice, panics when added again to the arena it is the root of; the
    * corrected loop leaves that arena's trie unchanged. */
  lemma AddTwicePanics()
    ensures var k := KeyV4(172, 17, 0, 0);
            && InsertV4(Leaf(k, 24), 0, k, 24) == None
            && InsertV4Fixed(Leaf(k, 24), 0, k, 24) == Some(Leaf(k, 24))
  {
    KeyV4OfAddr(172, 17, 0, 0);
    AddAgainPanics(KeyV4(172, 17, 0, 0), 24);
    ReAddLeafUnchanged(KeyV4(172, 17, 0, 0), 24);
  }

  lemma Byte8()
    ensures B(8) == [false, false, false, false, true, false, false, false]
  {
  }

  /** 8 shares its first four bits with 0 and none with 128. */
  lemma EightMatches()
    ensures MatchingPrefix(B(8), B(0)) == 4 && MatchingPrefix(B(8), B(128)) == 0
  {
    var e, z, t := B(8), B(0), B(128);
    ByteZero();
    Byte8();
    Byte128();
    assert e[4] != z[4] && e[0] != t[0];
    MatchingAgree(e, z, 4);
  }

  /** 10.128.128.0 parts from 10.0.0.0 at bit 8 and from 10.128.0.0 at
    * bit 16. */
  lemma SubsumeMatches()
    ensures MatchingPrefix(KeyV4(10, 0, 0, 0), KeyV4(10, 128, 128, 0)) == 8
    ensures MatchingPrefix(KeyV4(10, 128, 0, 0), KeyV4(10, 128, 128, 0)) == 16
  {
    ByteMatches();
    MatchingSymmetric(B(128), B(0));
    MatchingByte(10, B(0) + (B(0) + B(0)), 10, B(128) + (B(128) + B(0)));
    MatchingByte(0, B(0) + B(0), 128, B(128) + B(0));
    MatchingByte(10, B(128) + (B(0) + B(0)), 10, B(128) + (B(128) + B(0)));
    MatchingByte(128, B(0) + B(0), 128, B(128) + B(0));
    MatchingByte(0, B(0), 128, B(0));
  }

  /** 10.128.128.1 parts from 10.0.0.0 at bit 8 and from 10.128.0.0 at
    * bit 16, and lies in 10.128.128.0/20. */
  lemma LostMatches()
    ensures MatchingPrefix(KeyV4(10, 128, 128, 1), KeyV4(10, 0, 0, 0)) == 8
    ensures MatchingPrefix(KeyV4(10, 128, 128, 1), KeyV4(10, 128, 0, 0)) == 16
    ensures MatchingPrefix(KeyV4(10, 128, 128, 1), KeyV4(10, 128, 128, 0)) >= 20
  {
    ByteMatches();
    LostFromFirst();
    LostFromSecond();
    LostInNetwork();
  }

  lemma LostFromFirst()
    ensures MatchingPrefix(KeyV4(10, 128, 128, 1), KeyV4(10, 0, 0, 0)) == 8
  {
    ByteMatches();
    MatchingByte(10, B(128) + (B(128) + B(1)), 10, B(0) + (B(0) + B(0)));
    MatchingByte(128, B(128) + B(1), 0, B(0) + B(0));
  }

  lemma LostFromSecond()
    ensures MatchingPrefix(KeyV4(10, 128, 128, 1), KeyV4(10, 128, 0, 0)) == 16
  {
    ByteMatches();
    MatchingByte(10, B(128) + (B(128) + B(1)), 10, B(128) + (B(0) + B(0)));
    MatchingByte(128, B(128) + B(1), 128, B(0) + B(0));
    MatchingByte(128, B(1), 0, B(0));
  }

  lemma LostInNetwork()
    ensures MatchingPrefix(KeyV4(10, 128, 128, 1), KeyV4(10, 128, 128, 0)) >= 20
  {
    ZeroOne();
    MatchingByte(10, B(128) + (B(128) + B(1)), 10, B(128) + (B(128) + B(0)));
    MatchingByte(128, B(128) + B(1), 128, B(128) + B(0));
    MatchingByte(128, B(1), 128, B(0));
  }

  /** 10.128.8.1 parts from 10.0.0.0 at bit 8, from 10.128.0.0 at bit 20
    * and from 10.128.128.0 at bit 16. */
  lemma StrayMatches()
    ensures MatchingPrefix(KeyV4(10, 128, 8, 1), KeyV4(10, 0, 0, 0)) == 8
    ensures MatchingPrefix(KeyV4(10, 128, 8, 1), KeyV4(10, 128, 0, 0)) == 20
    ensures MatchingPrefix(KeyV4(10, 128, 8, 1), KeyV4(10, 128, 128, 0)) == 16
  {
    StrayFromFirst();
    StrayFromSecond();
    StrayFromNetwork();
  }

  lemma StrayFromFirst()
    ensures MatchingPrefix(KeyV4(10, 128, 8, 1), KeyV4(10, 0, 0, 0)) == 8
  {
    ByteMatches();
    MatchingByte(10, B(128) + (B(8) + B(1)), 10, B(0) + (B(0) + B(0)));
    MatchingByte(128, B(8) + B(1), 0, B(0) + B(0));
  }

  lemma StrayFromSecond()
    ensures MatchingPrefix(KeyV4(10, 128, 8, 1), KeyV4(10, 128, 0, 0)) == 20
  {
    EightMatches();
    MatchingByte(10, B(128) + (B(8) + B(1)), 10, B(128) + (B(0) + B(0)));
    MatchingByte(128, B(8) + B(1), 128, B(0) + B(0));
    MatchingByte(8, B(1), 0, B(0));
  }

  lemma StrayFromNetwork()
    ensures MatchingPrefix(KeyV4(10, 128, 8, 1), KeyV4(10, 128, 128, 0)) == 16
  {
    EightMatches();
    MatchingByte(10, B(128) + (B(8) + B(1)), 10, B(128) + (B(128) + B(0)));
    MatchingByte(128, B(8) + B(1), 128, B(128) + B(0));
    MatchingByte(8, B(1), 128, B(0));
  }

  /** The bits that decide the branches of the subsume example. */
  lemma SubsumeBits()
    ensures Bit(KeyV4(10, 128, 128, 0), 8) && !Bit(KeyV4(10, 128, 0, 0), 16)
    ensures Bit(KeyV4(10, 128, 128, 1), 8) && Bit(KeyV4(10, 128, 128, 1), 16)
    ensures Bit(KeyV4(10, 128, 8, 1), 8) && !Bit(KeyV4(10, 128, 8, 1), 16)
  {
    ByteValues();
    Byte1();
    Byte8();
  }

  /** The subsume example as written, with the keys abstracted to the facts
    * that decide it: the /20 descends to the right leaf, whose own segment
    * of 16 its common prefix reaches, and cuts that leaf back to end at
    * bit 20 although the leaf's address leaves the /20 at bit 16. */
  lemma WrittenSubsumes(kA: seq<bool>, kB: seq<bool>, kN: seq<bool>, q: seq<bool>, p: seq<bool>)
    requires |kA| == 32 && |kB| == 32 && |kN| == 32 && |q| == 32 && |p| == 32
    requires MatchingPrefix(kA, kB) == 8 && !Bit(kA, 8)
    requires MatchingPrefix(kA, kN) == 8 && Bit(kN, 8) && MatchingPrefix(kB, kN) == 16
    requires MatchingPrefix(q, kA) == 8 && Bit(q, 8) && MatchingPrefix(q, kB) == 16
    requires MatchingPrefix(p, kA) == 8 && Bit(p, 8) && MatchingPrefix(p, kB) == 20
    ensures InsertV4(Leaf(kA, 24), 0, kB, 24) == Some(Fork(kA, 8, Leaf(kA, 16), Leaf(kB, 16)))
    ensures InsertV4(Fork(kA, 8, Leaf(kA, 16), Leaf(kB, 16)), 0, kN, 20)
         == Some(Fork(kA, 8, Leaf(kA, 16), Leaf(kB, 12)))
    ensures !ContainsAt(Fork(kA, 8, Leaf(kA, 16), Leaf(kB, 12)), 0, q)
    ensures ContainsAt(Fork(kA, 8, Leaf(kA, 16), Leaf(kB, 12)), 0, p)
  {
    assert InsertV4(Leaf(kB, 16), 8, kN, 20) == Some(Leaf(kB, 12));
    assert !ContainsAt(Leaf(kB, 12), 8, q);
    assert ContainsAt(Leaf(kB, 12), 8, p);
  }

  /** The same with the corrected guard: the /20 splits the right leaf at
    * bit 16, and the walk finds the query and not the stray address. */
  lemma FixedSubsumes(kA: seq<bool>, kB: seq<bool>, kN: seq<bool>, q: seq<bool>, p: seq<bool>)
    requires |kA| == 32 && |kB| == 32 && |kN| == 32 && |q| == 32 && |p| == 32
    requires MatchingPrefix(kA, kB) == 8 && !Bit(kA, 8)
    requires MatchingPrefix(kA, kN) == 8 && Bit(kN, 8) && MatchingPrefix(kB, kN) == 16 && !Bit(kB, 16)
    requires MatchingPrefix(q, kA) == 8 && Bit(q, 8) && MatchingPrefix(q, kB) == 16
    requires Bit(q, 16) && MatchingPrefix(q, kN) >= 20
    requires MatchingPrefix(p, kA) == 8 && Bit(p, 8) && MatchingPrefix(p, kB) == 20 && !Bit(p, 16)
    ensures InsertV4Fixed(Leaf(kA, 24), 0, kB, 24) == Some(Fork(kA, 8, Leaf(kA, 16), Leaf(kB, 16)))
    ensures InsertV4Fixed(Fork(kA, 8, Leaf(kA, 16), Leaf(kB, 16)), 0, kN, 20)
         == Some(Fork(kA, 8, Leaf(kA, 16), Fork(kB, 8, Leaf(kB, 8), Leaf(kN, 4))))
    ensures ContainsAt(Fork(kA, 8, Leaf(kA, 16), Fork(kB, 8, Leaf(kB, 8), Leaf(kN, 4))), 0, q)
    ensures !ContainsAt(Fork(kA, 8, Leaf(kA, 16), Fork(kB, 8, Leaf(kB, 8), Leaf(kN, 4))), 0, p)
  {
    assert InsertV4Fixed(Leaf(kB, 16), 8, kN, 20) == Some(Fork(kB, 8, Leaf(kB, 8), Leaf(kN, 4)));
    assert ContainsAt(Leaf(kN, 4), 16, q);
    assert ContainsAt(Fork(kB, 8, Leaf(kB, 8), Leaf(kN, 4)), 8, q);
    assert !ContainsAt(Leaf(kB, 8), 16, p);
    assert !ContainsAt(Fork(kB, 8, Leaf(kB, 8), Leaf(kN, 4)), 8, p);
  }

  /** 10.0.0.0/24, then 10.128.0.0/24, then 10.128.128.0/20. As written,
    * the /20 subsumes the leaf of 10.128.0.0/24 into 10.128.0.0/20: the
    * trie then loses 10.128.128.1, which lies in the /20, and contains
    * 10.128.8.1, which lies in none of the three networks. With the
    * corrected guard the trie contains the first and not the second. */
  lemma SubsumeGuardLosesAddress()
    ensures var kA, kB, kN := KeyV4(10, 0, 0, 0), KeyV4(10, 128, 0, 0), KeyV4(10, 128, 128, 0);
            var q, p := KeyV4(10, 128, 128, 1), KeyV4(10, 128, 8, 1);
            && Agree(q, kN, 20)
            && !Agree(p, kA, 24) && !Agree(p, kB, 24) && !Agree(p, kN, 20)
            && InsertV4(Leaf(kA, 24), 0, kB, 24).Some?
            && InsertV4(InsertV4(Leaf(kA, 24), 0, kB, 24).value, 0, kN, 20).Some?
            && !ContainsAt(InsertV4(InsertV4(Leaf(kA, 24), 0, kB, 24).value, 0, kN, 20).value, 0, q)
            && ContainsAt(InsertV4(InsertV4(Leaf(kA, 24), 0, kB, 24).value, 0, kN, 20).value, 0, p)
            && InsertV4Fixed(Leaf(kA, 24), 0, kB, 24).Some?
            && InsertV4Fixed(InsertV4Fixed(Leaf(kA, 24), 0, kB, 24).value, 0, kN, 20).Some?
            && ContainsAt(InsertV4Fixed(InsertV4Fixed(Leaf(kA, 24), 0, kB, 24).value, 0, kN, 20).value, 0, q)
            && !ContainsAt(InsertV4Fixed(InsertV4Fixed(Leaf(kA, 24), 0, kB, 24).value, 0, kN, 20).value, 0, p)
  {
    var kA, kB, kN := KeyV4(10, 0, 0, 0), KeyV4(10, 128, 0, 0), KeyV4(10, 128, 128, 0);
    var q, p := KeyV4(10, 128, 128, 1), KeyV4(10, 128, 8, 1);
    KeyV4OfAddr(10, 0, 0, 0);
    KeyV4OfAddr(10, 128, 0, 0);
    KeyV4OfAddr(10, 128, 128, 0);
    KeyV4OfAddr(10, 128, 128, 1);
    KeyV4OfAddr(10, 128, 8, 1);
    MatchesAt8();
    SubsumeMatches();
    LostMatches();
    StrayMatches();
    ExampleBits();
    SubsumeBits();
    MatchingAgree(q, kN, 20);
    MatchingAgree(p, kA, 24);
    MatchingAgree(p, kB, 24);
    MatchingAgree(p, kN, 20);
    WrittenSubsumes(kA, kB, kN, q, p);
    FixedSubsumes(kA, kB, kN, q, p);
  }
}
