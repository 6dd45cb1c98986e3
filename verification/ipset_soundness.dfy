/**
 * What the insertion of ipset.go, as written, guarantees. It coincides
 * with the corrected insertion unless the new network's mask length is
 * exactly the cumulative extent of a fork it reaches; so a set built from
 * networks in order of non-decreasing mask length, or from at most two
 * networks, holds exactly the addresses of its networks.
 */
module IPSetSoundness {
  import opened Results
  import opened Machine
  import opened Bits
  import opened IPSet
  import opened IPSetShape
  import opened Corrected

  /** The cumulative extents at which the forks of a subtree end. */
  function ForkEnds(n: Node, off: nat): set<nat>
  {
    match n
    case Leaf(_, _) => {}
    case Fork(_, p, l, r) => {off + p} + ForkEnds(l, off + p) + ForkEnds(r, off + p)
  }

  /** The fork ends of a set's trie. */
  function SplitPoints(s: IPSet): set<nat>
  {
    if s.root.None? then {} else ForkEnds(s.root.value, 0)
  }

  /** Away from fork ends, the strict subsume guard of ipset.go decides as
    * the inclusive one does: at a leaf whose extent equals the mask length
    * the absorb case returns the very leaf the subsume case would build. */
  lemma {:induction false} InsertAgreesWithFixed(n: Node, off: u32, addr: Key, plen: u32)
    requires Wf(n, off)
    requires plen !in ForkEnds(n, off)
    ensures InsertAt(n, off, addr, plen) == InsertFixed(n, off, addr, plen)
  {
    var m := MatchingPrefix(addr, n.addr);
    var e := End(n, off);
    assert Add32(off, n.prefix) == e;
    if n.Fork? && !(m >= plen && plen < e) && !(m < plen && m < e) {
      var c := if Bit(addr, e) then n.right else n.left;
      InsertAgreesWithFixed(c, e, addr, plen);
      AtDescends(n, off, addr, plen);
      FixedDescends(n, off, addr, plen);
    } else {
      AgreesWithoutDescent(n, off, addr, plen);
    }
  }

  /** Where neither insertion descends, both build the same node. */
  lemma AgreesWithoutDescent(n: Node, off: u32, addr: Key, plen: u32)
    requires off + n.prefix <= 128
    requires var m, e := MatchingPrefix(addr, n.addr), End(n, off);
             n.Leaf? || (m >= plen && plen < e) || (m < plen && m < e)
    ensures InsertAt(n, off, addr, plen) == InsertFixed(n, off, addr, plen)
  {
    assert Add32(off, n.prefix) == End(n, off);
  }

  /** Past the three other cases, the insertion of ipset.go rebuilds the
    * fork with the child on the network's side replaced. */
  lemma AtDescends(n: Node, off: u32, addr: Key, plen: u32)
    requires n.Fork? && off + n.prefix < TWO_32
    requires MatchingPrefix(addr, n.addr) >= End(n, off) && End(n, off) <= plen
    ensures var e := End(n, off);
            InsertAt(n, off, addr, plen)
            == if Bit(addr, e) then n.(right := InsertAt(n.right, e, addr, plen))
               else n.(left := InsertAt(n.left, e, addr, plen))
  {
    assert Add32(off, n.prefix) == End(n, off);
  }

  /** The subsume case of ipset.go: a network that agrees with n on all its
    * bits and ends inside n's segment cuts n back to a leaf ending exactly
    * at the mask length. The wrapping `+=` of a negative difference nets to
    * the non-negative segment `plen - off`. */
  lemma SubsumeCuts(n: Node, off: u32, addr: Key, plen: u32)
    requires off + n.prefix < TWO_32
    requires off <= plen < End(n, off) && MatchingPrefix(addr, n.addr) >= plen
    ensures InsertAt(n, off, addr, plen) == Leaf(n.addr, plen - off)
    ensures End(InsertAt(n, off, addr, plen), off) == plen
  {
    assert Add32(off, n.prefix) == End(n, off);
  }

  /** The insertion of ipset.go, as written, keeps a trie shaped for every
    * network that agrees with the subtree above it: both children or
    * neither, forks ending before bit 128, each node agreeing with its
    * ancestors. Only the positivity of segments can be lost. */
  lemma {:induction false} InsertAtShape(n: Node, off: u32, addr: Key, plen: u32)
    requires Shaped(n, off) && off <= plen <= 128
    requires Agree(addr, n.addr, off)
    ensures Shaped(InsertAt(n, off, addr, plen), off)
  {
    var m := MatchingPrefix(addr, n.addr);
    var e := End(n, off);
    assert Add32(off, n.prefix) == e;
    MatchingAgree(addr, n.addr, off);
    if m >= plen && plen < e {
      SubsumeCuts(n, off, addr, plen);
    } else if m < plen && m < e {
      SplitShaped(n, off, addr, plen);
    } else if n.Fork? {
      MatchingAgree(addr, n.addr, e);
      var c := if Bit(addr, e) then n.right else n.left;
      assert Agree(addr, c.addr, e);
      InsertAtShape(c, e, addr, plen);
      AtDescends(n, off, addr, plen);
      DescendShaped(n, off, addr, InsertAt(c, e, addr, plen));
    }
  }

  /** Replacing the child on the network's side by a shaped node with the
    * same address keeps the fork shaped. */
  lemma DescendShaped(n: Node, off: nat, addr: Key, c': Node)
    requires Shaped(n, off) && n.Fork?
    requires var c := if Bit(addr, End(n, off)) then n.right else n.left;
             c'.addr == c.addr && Shaped(c', End(n, off))
    ensures Shaped(if Bit(addr, End(n, off)) then n.(right := c') else n.(left := c'), off)
  {
  }

  /** Cutting a shaped node back to start at m, keeping its end, leaves it
    * shaped below m. */
  lemma CutShaped(n: Node, off: nat, m: nat)
    requires Shaped(n, off) && off <= m <= End(n, off)
    ensures Shaped(n.(prefix := End(n, off) - m), m)
  {
  }

  /** The split fork in terms of its two halves, with the wrapping
    * arithmetic resolved. */
  lemma SplitParts(n: Node, off: u32, m: u32, addr: Key, plen: u32)
    requires off <= m < plen <= 128 && m < End(n, off) <= 128
    ensures var splitted, newNode := n.(prefix := End(n, off) - m), Leaf(addr, plen - m);
            Split(n, Add32(off, n.prefix), m, addr, plen)
            == if Bit(n.addr, m) then Fork(n.addr, m - off, newNode, splitted)
               else Fork(n.addr, m - off, splitted, newNode)
  {
    assert Add32(off, n.prefix) == End(n, off);
  }

  /** The fork a split builds is shaped: the cut-back node keeps its end
    * and subtree, and the new leaf leaves it at the split point. */
  lemma SplitShaped(n: Node, off: u32, addr: Key, plen: u32)
    requires Shaped(n, off)
    requires off <= MatchingPrefix(addr, n.addr) < plen <= 128
    requires MatchingPrefix(addr, n.addr) < End(n, off)
    ensures Shaped(Split(n, Add32(off, n.prefix), MatchingPrefix(addr, n.addr), addr, plen), off)
  {
    var m := MatchingPrefix(addr, n.addr);
    assert End(n, off) <= 128;
    SplitParts(n, off, m, addr, plen);
    CutShaped(n, off, m);
    MatchingAgree(addr, n.addr, m);
  }

  /** `ipset.Add` as written keeps a set shaped, whatever the network. */
  lemma AddShaped(s: IPSet, cidr: Option<IPNet>)
    requires ShapedSet(s) && Fits(cidr)
    ensures Add(s, cidr).Ok? && ShapedSet(Add(s, cidr).value)
  {
    var node := NodeFromNet(cidr).value;
    if s.root.Some? {
      InsertAtShape(s.root.value, 0, node.addr, node.prefix);
    }
  }

  /** Adding any list of networks keeps a set shaped. */
  lemma {:induction false} AddAllShaped(s: IPSet, cidrs: seq<Option<IPNet>>)
    requires ShapedSet(s) && AllFit(cidrs)
    ensures AddAll(s, cidrs).Ok? && ShapedSet(AddAll(s, cidrs).value)
    decreases |cidrs|
  {
    if |cidrs| > 0 {
      ListCons(cidrs);
      AddShaped(s, cidrs[0]);
      AddAllShaped(Add(s, cidrs[0]).value, cidrs[1..]);
    }
  }

  /** `NewSet` builds a shaped trie from networks in any order. */
  lemma NewSetShaped(cidrs: seq<Option<IPNet>>)
    requires AllFit(cidrs)
    ensures NewSet(cidrs).Ok? && ShapedSet(NewSet(cidrs).value)
  {
    AddAllShaped(IPSet(None), cidrs);
  }

  /** Every fork end of r is one of n or lies below plen. */
  ghost predicate NewEndsBelow(r: Node, n: Node, off: nat, plen: nat)
  {
    forall x :: x in ForkEnds(r, off) ==> x in ForkEnds(n, off) || x < plen
  }

  /** Cutting a node back to start at m, keeping its end, keeps its fork ends. */
  lemma CutKeepsEnds(n: Node, off: nat, m: nat)
    requires m <= End(n, off) && End(n, off) - m < TWO_32
    ensures ForkEnds(n.(prefix := End(n, off) - m), m) == ForkEnds(n, off)
  {
  }

  /** A split adds one fork, which ends where the network leaves n. */
  lemma SplitEnds(n: Node, off: u32, addr: Key, plen: u32)
    requires Wf(n, off)
    requires off <= MatchingPrefix(addr, n.addr) < plen <= 128
    requires MatchingPrefix(addr, n.addr) < End(n, off)
    ensures NewEndsBelow(Split(n, Add32(off, n.prefix), MatchingPrefix(addr, n.addr), addr, plen), n, off, plen)
  {
    var m := MatchingPrefix(addr, n.addr);
    var f := Split(n, Add32(off, n.prefix), m, addr, plen);
    SplitValue(n, off, addr, plen);
    var splitted, newNode := n.(prefix := End(n, off) - m), Leaf(addr, plen - m);
    CutKeepsEnds(n, off, m);
    assert ForkEnds(newNode, m) == {};
    assert ForkEnds(f, off) <= {m} + ForkEnds(n, off) by {
      if Bit(n.addr, m) {
        assert f == Fork(n.addr, m - off, newNode, splitted);
      } else {
        assert f == Fork(n.addr, m - off, splitted, newNode);
      }
    }
  }

  /** Rebuilding a fork around a new child on one side keeps the fork's end
    * and the other side's ends. */
  lemma DescendEnds(n: Node, off: nat, addr: Key, plen: nat, c': Node)
    requires n.Fork?
    requires NewEndsBelow(c', if Bit(addr, End(n, off)) then n.right else n.left, End(n, off), plen)
    ensures NewEndsBelow(if Bit(addr, End(n, off)) then n.(right := c') else n.(left := c'), n, off, plen)
  {
    var e := End(n, off);
    var r := if Bit(addr, e) then n.(right := c') else n.(left := c');
    assert ForkEnds(r, off) == {e} + ForkEnds(r.left, e) + ForkEnds(r.right, e);
    assert ForkEnds(n, off) == {e} + ForkEnds(n.left, e) + ForkEnds(n.right, e);
  }

  /** Insertion creates forks only at extents below the new mask length. */
  lemma {:induction false} FixedForkEnds(n: Node, off: u32, addr: Key, plen: u32)
    requires Wf(n, off)
    requires off <= plen <= 128
    requires Agree(addr, n.addr, off)
    ensures NewEndsBelow(InsertFixed(n, off, addr, plen), n, off, plen)
  {
    var m := MatchingPrefix(addr, n.addr);
    var e := End(n, off);
    assert Add32(off, n.prefix) == e;
    MatchingAgree(addr, n.addr, off);
    if m >= plen && plen <= e {
    } else if m < plen && m < e {
      SplitEnds(n, off, addr, plen);
    } else if n.Leaf? {
    } else {
      MatchingAgree(addr, n.addr, e);
      ChildOnSide(n, off, addr);
      var c := if Bit(addr, e) then n.right else n.left;
      FixedForkEnds(c, e, addr, plen);
      FixedDescends(n, off, addr, plen);
      DescendEnds(n, off, addr, plen, InsertFixed(c, e, addr, plen));
    }
  }

  /** `ipset.Add` as written, for a mask length that is not a fork end of the
    * set: it keeps the set well formed, adds exactly the network's
    * addresses, and creates fork ends only below the mask length. */
  lemma AddSound(s: IPSet, cidr: Option<IPNet>)
    requires WfSet(s) && Fits(cidr)
    requires MaskLen(cidr) !in SplitPoints(s)
    ensures Add(s, cidr).Ok? && WfSet(Add(s, cidr).value)
    ensures forall ip :: Contains(Add(s, cidr).value, ip) <==> Contains(s, ip) || InNet(cidr, ip)
    ensures forall x :: x in SplitPoints(Add(s, cidr).value) ==> x in SplitPoints(s) || x < MaskLen(cidr)
  {
    var node := NodeFromNet(cidr).value;
    if s.root.Some? {
      InsertAgreesWithFixed(s.root.value, 0, node.addr, node.prefix);
      FixedForkEnds(s.root.value, 0, node.addr, node.prefix);
    }
    AddFixedSound(s, cidr);
    assert Add(s, cidr) == AddFixed(s, cidr);
  }

  /** Mask lengths never decrease along the list. */
  predicate Ascending(cidrs: seq<Option<IPNet>>)
  {
    forall i, j :: 0 <= i < j < |cidrs| ==> MaskLen(cidrs[i]) <= MaskLen(cidrs[j])
  }

  lemma AscendingTail(cidrs: seq<Option<IPNet>>)
    requires |cidrs| > 0 && Ascending(cidrs)
    ensures Ascending(cidrs[1..])
    ensures |cidrs| > 1 ==> MaskLen(cidrs[0]) <= MaskLen(cidrs[1..][0])
  {
    var rest := cidrs[1..];
    assert forall i :: 0 <= i < |rest| ==> rest[i] == cidrs[i + 1];
  }

  /** Adding networks in order of non-decreasing mask length to a set whose
    * forks all end below the first mask length adds exactly their
    * addresses. */
  lemma {:induction false} AddAllSound(s: IPSet, cidrs: seq<Option<IPNet>>)
    requires WfSet(s) && AllFit(cidrs) && Ascending(cidrs)
    requires |cidrs| > 0 ==> forall x :: x in SplitPoints(s) ==> x < MaskLen(cidrs[0])
    ensures AddAll(s, cidrs).Ok? && WfSet(AddAll(s, cidrs).value)
    ensures forall ip :: Contains(AddAll(s, cidrs).value, ip) <==> Contains(s, ip) || InSomeNet(cidrs, ip)
    decreases |cidrs|
  {
    if |cidrs| > 0 {
      ListCons(cidrs);
      AddSound(s, cidrs[0]);
      AscendingTail(cidrs);
      AddAllSound(Add(s, cidrs[0]).value, cidrs[1..]);
    }
  }

  /** `NewSet` over networks in order of non-decreasing mask length holds
    * exactly the addresses of its networks. */
  lemma NewSetSound(cidrs: seq<Option<IPNet>>)
    requires AllFit(cidrs) && Ascending(cidrs)
    ensures NewSet(cidrs).Ok? && WfSet(NewSet(cidrs).value)
    ensures forall ip :: Contains(NewSet(cidrs).value, ip) <==> InSomeNet(cidrs, ip)
  {
    AddAllSound(IPSet(None), cidrs);
  }

  /** `NewSet` over networks of one mask length holds exactly their
    * addresses. */
  lemma NewSetUniformSound(cidrs: seq<Option<IPNet>>, len: nat)
    requires AllFit(cidrs)
    requires forall i :: 0 <= i < |cidrs| ==> MaskLen(cidrs[i]) == len
    ensures NewSet(cidrs).Ok?
    ensures forall ip :: Contains(NewSet(cidrs).value, ip) <==> InSomeNet(cidrs, ip)
  {
    NewSetSound(cidrs);
  }

  /** Two networks make a set with exactly their addresses in either order. */
  lemma PairSound(a: Option<IPNet>, b: Option<IPNet>)
    requires Fits(a) && Fits(b)
    ensures NewSet([a, b]).Ok? && NewSet([b, a]).Ok?
    ensures forall ip :: Contains(NewSet([a, b]).value, ip) <==> InNet(a, ip) || InNet(b, ip)
    ensures forall ip :: Contains(NewSet([a, b]).value, ip) <==> Contains(NewSet([b, a]).value, ip)
  {
    PairOrder(a, b);
    PairOrder(b, a);
  }

  lemma PairOrder(a: Option<IPNet>, b: Option<IPNet>)
    requires Fits(a) && Fits(b)
    ensures NewSet([a, b]).Ok?
    ensures forall ip :: Contains(NewSet([a, b]).value, ip) <==> InNet(a, ip) || InNet(b, ip)
  {
    var empty := IPSet(None);
    AddSound(empty, a);
    var s1 := Add(empty, a).value;
    assert SplitPoints(s1) == {};
    AddSound(s1, b);
    var s2 := Add(s1, b).value;
    assert [a, b][1..] == [b];
    assert [b][1..] == [];
    assert AddAll(s1, [b]) == AddAll(s2, []);
    assert NewSet([a, b]) == AddAll(s1, [b]);
  }
}
