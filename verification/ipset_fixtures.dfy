/**
 * The "all previous mixed" group of ipset_test.go: seven IPv4 networks in
 * an order that is not by mask length. Their keys part within the first
 * byte of the address unless they are equal or come last, so no network
 * meets a fork at its mask length and the set holds exactly their
 * addresses.
 */
module IPSetFixtures {
  import opened Results
  import opened Machine
  import opened Bits
  import opened IPSet
  import opened IPSetShape
  import opened IPSetOrder
  import opened Counterexample

  /** IPv4 keys whose first bytes differ part before bit 96 + 8. */
  lemma FirstByteApart(a1: byte, b1: byte, c1: byte, d1: byte, o1: nat,
                       a2: byte, b2: byte, c2: byte, d2: byte, o2: nat)
    requires a1 != a2 && o1 <= 32 && o2 <= 32
    ensures MatchingPrefix(KeyOf(Net4(a1, b1, c1, d1, o1)), KeyOf(Net4(a2, b2, c2, d2, o2))) < 104
  {
    EncodeNet4(a1, b1, c1, d1, o1);
    EncodeNet4(a2, b2, c2, d2, o2);
    MatchingV4(a1, b1, c1, d1, a2, b2, c2, d2);
    MatchingByte(a1, B(b1) + (B(c1) + B(d1)), a2, B(b2) + (B(c2) + B(d2)));
    BInjective(a1, a2);
    MatchingFull(B(a1), B(a2));
  }

  /** The same for two networks given as parsed values. */
  lemma FirstByteApartNets(x: Option<IPNet>, y: Option<IPNet>)
    requires x.Some? && |x.value.ip| == 4 && x.value.bits == 32 && x.value.ones <= 32
    requires y.Some? && |y.value.ip| == 4 && y.value.bits == 32 && y.value.ones <= 32
    requires x.value.ip[0] != y.value.ip[0]
    ensures MatchingPrefix(KeyOf(x), KeyOf(y)) < 104
  {
    var u, v := x.value, y.value;
    assert u.ip == [u.ip[0], u.ip[1], u.ip[2], u.ip[3]];
    assert v.ip == [v.ip[0], v.ip[1], v.ip[2], v.ip[3]];
    assert x == Net4(u.ip[0], u.ip[1], u.ip[2], u.ip[3], u.ones);
    assert y == Net4(v.ip[0], v.ip[1], v.ip[2], v.ip[3], v.ones);
    FirstByteApart(u.ip[0], u.ip[1], u.ip[2], u.ip[3], u.ones, v.ip[0], v.ip[1], v.ip[2], v.ip[3], v.ones);
  }

  /** The networks of the group, in the order of the test: 192.168.0.0/25,
    * 192.168.0.0/24, 255.0.0.0/20, 254.0.0.0/20, 128.0.0.0/20,
    * 127.0.0.1/32 and 127.0.0.2/32. */
  const MIXED: seq<Option<IPNet>> :=
    [Net4(192, 168, 0, 0, 25), Net4(192, 168, 0, 0, 24), Net4(255, 0, 0, 0, 20),
     Net4(254, 0, 0, 0, 20), Net4(128, 0, 0, 0, 20), Net4(127, 0, 0, 1, 32), Net4(127, 0, 0, 2, 32)]

  /** Every network of the group fits the keyspace, with a mask length of
    * at least 96 + 20. */
  lemma MixedFit()
    ensures AllFit(MIXED)
    ensures forall i :: 0 <= i < |MIXED| ==> 116 <= MaskLen(MIXED[i])
  {
    forall i | 0 <= i < |MIXED|
      ensures Fits(MIXED[i]) && 116 <= MaskLen(MIXED[i])
    {
      var x := MIXED[i].value;
      assert |x.ip| == 4 && x.bits == 32 && 20 <= x.ones <= 32;
    }
  }

  /** Among the first six networks, keys are equal (the two 192.168.0.0
    * networks) or part within the first byte of the address. */
  lemma MixedApart()
    ensures forall i, j :: 0 <= j < i < |MIXED| - 1 ==>
              KeyOf(MIXED[i]) == KeyOf(MIXED[j]) || MatchingPrefix(KeyOf(MIXED[i]), KeyOf(MIXED[j])) < 104
  {
    forall i, j | 0 <= j < i < |MIXED| - 1
      ensures KeyOf(MIXED[i]) == KeyOf(MIXED[j]) || MatchingPrefix(KeyOf(MIXED[i]), KeyOf(MIXED[j])) < 104
    {
      if i >= 2 {
        assert i == 2 || i == 3 || i == 4 || i == 5;
        assert j == 0 || j == 1 || j == 2 || j == 3 || j == 4;
        FirstByteApartNets(MIXED[i], MIXED[j]);
      }
    }
  }

  /** The group, added in the order of the test, makes a set that holds
    * exactly the addresses of its seven networks. */
  lemma MixedGroupSound()
    ensures NewSet(MIXED).Ok? && WfSet(NewSet(MIXED).value)
    ensures forall ip :: Contains(NewSet(MIXED).value, ip) <==> InSomeNet(MIXED, ip)
  {
    MixedFit();
    MixedApart();
    ApartOffEnds({}, {}, MIXED, 104);
    NewSetOffEnds(MIXED);
  }
}
