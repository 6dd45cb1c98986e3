/**
 * The insertion of ipset.go with the subsume guard made inclusive
 * (`node.prefix <= offset` where the Go code has `node.prefix < offset`).
 * With the inclusive guard a network whose length equals the extent of
 * a fork it agrees with replaces that fork's whole subtree, and insertion
 * adds exactly the new network to the set the trie stands for.
 */
module Corrected {
  import opened Results
  import opened Machine
  import opened Bits
  import opened IPSet
  import opened IPSetShape

  /** `InsertAt` with `plen <= offset` in the subsume guard; every other
    * branch is as in ipset.go. */
  function InsertFixed(n: Node, off: u32, addr: Key, plen: u32): (r: Node)
    ensures r.addr == n.addr
  {
    var matching := MatchingPrefix(addr, n.addr);
    var offset := Add32(off, n.prefix);
    if matching >= plen && plen <= offset then
      Leaf(n.addr, Add32(n.prefix, Sub32(plen, offset)))
    else if matching < plen && matching < offset then
      Split(n, offset, matching, addr, plen)
    else if n.Leaf? then
      n
    else if !Bit(addr, offset) then
      n.(left := InsertFixed(n.left, offset, addr, plen))
    else
      n.(right := InsertFixed(n.right, offset, addr, plen))
  }

  /** r stands for the set of n together with the network addr/plen. */
  ghost predicate Adds(r: Node, n: Node, off: nat, addr: Key, plen: nat)
  {
    forall k: Key :: InSomeLeaf(r, off, k) <==> InSomeLeaf(n, off, k) || Agree(k, addr, plen)
  }

  /** Subsume: a network that agrees with n and ends within n's extent
    * covers all of n, so a leaf cut back to the network replaces n. */
  lemma SubsumeSet(n: Node, off: nat, addr: Key, plen: nat)
    requires Wf(n, off)
    requires off <= plen <= End(n, off)
    requires Agree(addr, n.addr, plen)
    ensures Adds(Leaf(n.addr, plen - off), n, off, addr, plen)
  {
    forall k: Key
      ensures InSomeLeaf(Leaf(n.addr, plen - off), off, k) <==> InSomeLeaf(n, off, k) || Agree(k, addr, plen)
    {
      if InSomeLeaf(n, off, k) {
        LeafAgreesWithRoot(n, off, k);
      }
    }
  }

  /** The fork a split makes, written with plain arithmetic. */
  lemma SplitValue(n: Node, off: u32, addr: Key, plen: u32)
    requires Wf(n, off)
    requires off <= MatchingPrefix(addr, n.addr) < plen <= 128
    requires MatchingPrefix(addr, n.addr) < End(n, off)
    ensures var m := MatchingPrefix(addr, n.addr);
            var f := Split(n, Add32(off, n.prefix), m, addr, plen);
            var splitted, newNode := n.(prefix := End(n, off) - m), Leaf(addr, plen - m);
            && f.prefix == m - off
            && f.left == (if Bit(n.addr, m) then newNode else splitted)
            && f.right == (if Bit(n.addr, m) then splitted else newNode)
            && Bit(addr, m) != Bit(n.addr, m)
  {
    assert Add32(off, n.prefix) == End(n, off);
  }

  /** The two halves of a split are well formed below the split point. */
  lemma SplitShape(n: Node, off: u32, addr: Key, plen: u32)
    requires Wf(n, off)
    requires off <= MatchingPrefix(addr, n.addr) < plen <= 128
    requires MatchingPrefix(addr, n.addr) < End(n, off)
    ensures var m := MatchingPrefix(addr, n.addr);
            var f := Split(n, Add32(off, n.prefix), m, addr, plen);
            Wf(f, off) && (m > off ==> f.prefix > 0)
  {
    var m := MatchingPrefix(addr, n.addr);
    SplitValue(n, off, addr, plen);
    assert Wf(n.(prefix := End(n, off) - m), m);
  }

  /** Split: a network that leaves n's segment at bit m (beyond the
    * ancestors' extent) gets a leaf beside the cut-back n. */
  lemma SplitSet(n: Node, off: u32, addr: Key, plen: u32)
    requires Wf(n, off)
    requires off <= MatchingPrefix(addr, n.addr) < plen <= 128
    requires MatchingPrefix(addr, n.addr) < End(n, off)
    ensures var m := MatchingPrefix(addr, n.addr);
            Adds(Split(n, Add32(off, n.prefix), m, addr, plen), n, off, addr, plen)
  {
    var m := MatchingPrefix(addr, n.addr);
    var f := Split(n, Add32(off, n.prefix), m, addr, plen);
    var splitted, newNode := n.(prefix := End(n, off) - m), Leaf(addr, plen - m);
    SplitValue(n, off, addr, plen);
    assert off + f.prefix == m;
    forall k: Key
      ensures InSomeLeaf(f, off, k) <==> InSomeLeaf(n, off, k) || Agree(k, addr, plen)
    {
      assert InSomeLeaf(f, off, k) == (InSomeLeaf(splitted, m, k) || InSomeLeaf(newNode, m, k));
      assert InSomeLeaf(splitted, m, k) == InSomeLeaf(n, off, k);
    }
  }

  /** Absorb: a leaf whose extent the network does not leave already
    * covers every address of the network. */
  lemma AbsorbSet(n: Node, off: nat, addr: Key, plen: nat)
    requires Wf(n, off) && n.Leaf?
    requires End(n, off) <= plen
    requires Agree(addr, n.addr, End(n, off))
    ensures Adds(n, n, off, addr, plen)
  {
  }

  /** Descend: replacing the child on the network's side by a well-formed
    * node with the same address keeps the fork well formed. */
  lemma DescendShape(n: Node, off: nat, addr: Key, c': Node)
    requires Wf(n, off) && n.Fork?
    requires var c := if Bit(addr, End(n, off)) then n.right else n.left;
             c'.addr == c.addr && c'.prefix > 0 && Wf(c', End(n, off))
    ensures Wf(if Bit(addr, End(n, off)) then n.(right := c') else n.(left := c'), off)
  {
  }

  /** Descend: after the child on the network's side has taken the network,
    * the fork gains exactly the network. */
  lemma DescendSet(n: Node, off: nat, addr: Key, plen: nat, c': Node)
    requires n.Fork?
    requires var c := if Bit(addr, End(n, off)) then n.right else n.left;
             Adds(c', c, End(n, off), addr, plen)
    ensures Adds(if Bit(addr, End(n, off)) then n.(right := c') else n.(left := c'), n, off, addr, plen)
  {
    var e := End(n, off);
    var r := if Bit(addr, e) then n.(right := c') else n.(left := c');
    forall k: Key
      ensures InSomeLeaf(r, off, k) <==> InSomeLeaf(n, off, k) || Agree(k, addr, plen)
    {
      assert InSomeLeaf(r, off, k) == (InSomeLeaf(r.left, e, k) || InSomeLeaf(r.right, e, k));
    }
  }

  /** Past the three other cases, insertion rebuilds the fork with the
    * child on the network's side replaced. */
  lemma FixedDescends(n: Node, off: u32, addr: Key, plen: u32)
    requires n.Fork? && off + n.prefix < TWO_32
    requires MatchingPrefix(addr, n.addr) >= End(n, off) && End(n, off) < plen
    ensures var e := End(n, off);
            InsertFixed(n, off, addr, plen)
            == if Bit(addr, e) then n.(right := InsertFixed(n.right, e, addr, plen))
               else n.(left := InsertFixed(n.left, e, addr, plen))
  {
    assert Add32(off, n.prefix) == End(n, off);
  }

  /** The child on the network's side of a fork the network agrees with
    * is one the network enters. */
  lemma ChildOnSide(n: Node, off: nat, addr: Key)
    requires Wf(n, off) && n.Fork?
    requires Agree(addr, n.addr, End(n, off))
    ensures var c := if Bit(addr, End(n, off)) then n.right else n.left;
            && Wf(c, End(n, off)) && c.prefix > 0
            && Agree(addr, c.addr, End(n, off))
            && MatchingPrefix(addr, c.addr) > End(n, off)
  {
    var e := End(n, off);
    var c := if Bit(addr, e) then n.right else n.left;
    assert Agree(addr, c.addr, e + 1);
    MatchingAgree(addr, c.addr, e + 1);
  }

  /** Insertion keeps a subtree well formed, and a node whose segment is
    * not empty, and which the network enters, keeps a non-empty segment. */
  lemma {:induction false} InsertFixedShape(n: Node, off: u32, addr: Key, plen: u32)
    requires Wf(n, off)
    requires off <= plen <= 128
    requires Agree(addr, n.addr, off)
    ensures Wf(InsertFixed(n, off, addr, plen), off)
    ensures n.prefix > 0 && off < plen && MatchingPrefix(addr, n.addr) > off
            ==> InsertFixed(n, off, addr, plen).prefix > 0
  {
    var m := MatchingPrefix(addr, n.addr);
    var e := End(n, off);
    assert Add32(off, n.prefix) == e;
    MatchingAgree(addr, n.addr, off);
    if m >= plen && plen <= e {
    } else if m < plen && m < e {
      SplitShape(n, off, addr, plen);
    } else if n.Leaf? {
    } else {
      MatchingAgree(addr, n.addr, e);
      ChildOnSide(n, off, addr);
      var c := if Bit(addr, e) then n.right else n.left;
      InsertFixedShape(c, e, addr, plen);
      FixedDescends(n, off, addr, plen);
      DescendShape(n, off, addr, InsertFixed(c, e, addr, plen));
    }
  }

  /** Insertion adds exactly the network's addresses to the set a
    * well-formed subtree stands for. */
  lemma {:induction false} InsertFixedSet(n: Node, off: u32, addr: Key, plen: u32)
    requires Wf(n, off)
    requires off <= plen <= 128
    requires Agree(addr, n.addr, off)
    ensures Adds(InsertFixed(n, off, addr, plen), n, off, addr, plen)
  {
    var m := MatchingPrefix(addr, n.addr);
    var e := End(n, off);
    assert Add32(off, n.prefix) == e;
    MatchingAgree(addr, n.addr, off);
    if m >= plen && plen <= e {
      MatchingAgree(addr, n.addr, plen);
      assert InsertFixed(n, off, addr, plen) == Leaf(n.addr, plen - off);
      SubsumeSet(n, off, addr, plen);
    } else if m < plen && m < e {
      SplitSet(n, off, addr, plen);
    } else if n.Leaf? {
      MatchingAgree(addr, n.addr, e);
      AbsorbSet(n, off, addr, plen);
    } else {
      MatchingAgree(addr, n.addr, e);
      ChildOnSide(n, off, addr);
      var c := if Bit(addr, e) then n.right else n.left;
      InsertFixedSet(c, e, addr, plen);
      FixedDescends(n, off, addr, plen);
      DescendSet(n, off, addr, plen, InsertFixed(c, e, addr, plen));
    }
  }

  /** Inserting `addr/plen` into a well-formed subtree whose ancestors the
    * network agrees with keeps the subtree well formed and adds exactly the
    * network's addresses to the set it stands for. */
  lemma InsertFixedSound(n: Node, off: u32, addr: Key, plen: u32)
    requires Wf(n, off)
    requires off <= plen <= 128
    requires Agree(addr, n.addr, off)
    ensures Wf(InsertFixed(n, off, addr, plen), off)
    ensures Adds(InsertFixed(n, off, addr, plen), n, off, addr, plen)
  {
    InsertFixedShape(n, off, addr, plen);
    InsertFixedSet(n, off, addr, plen);
  }

  /** `ipset.Add` with the corrected insertion. */
  function AddFixed(s: IPSet, cidr: Option<IPNet>): (r: Result<IPSet, Error>)
    ensures r.Ok? <==> Valid(cidr)
    ensures r.Err? ==> r.error == NodeFromNet(cidr).error
  {
    match NodeFromNet(cidr)
    case Err(e) => Err(e)
    case Ok(node) =>
      match s.root
      case None => Ok(IPSet(Some(node)))
      case Some(root) => Ok(IPSet(Some(InsertFixed(root, 0, node.addr, node.prefix))))
  }

  /** `NewSet` with the corrected insertion. */
  function NewSetFixed(cidrs: seq<Option<IPNet>>): (r: Result<IPSet, Error>)
    ensures r.Ok? <==> AllValid(cidrs)
  {
    AddAllFixed(IPSet(None), cidrs)
  }

  function AddAllFixed(s: IPSet, cidrs: seq<Option<IPNet>>): (r: Result<IPSet, Error>)
    ensures r.Ok? <==> AllValid(cidrs)
    decreases |cidrs|
  {
    if |cidrs| == 0 then Ok(s)
    else
      var first := AddFixed(s, cidrs[0]);
      if first.Err? then
        Err(first.error)
      else
        AllValidCons(cidrs);
        AddAllFixed(first.value, cidrs[1..])
  }

  /** With the corrected insertion, adding a network to a well-formed set
    * keeps it well formed and adds exactly the network's addresses. */
  lemma AddFixedSound(s: IPSet, cidr: Option<IPNet>)
    requires WfSet(s) && Fits(cidr)
    ensures AddFixed(s, cidr).Ok? && WfSet(AddFixed(s, cidr).value)
    ensures forall ip :: Contains(AddFixed(s, cidr).value, ip) <==> Contains(s, ip) || InNet(cidr, ip)
  {
    var node := NodeFromNet(cidr).value;
    var r := AddFixed(s, cidr).value;
    if s.root.Some? {
      InsertFixedSound(s.root.value, 0, node.addr, node.prefix);
    }
    forall ip
      ensures Contains(r, ip) <==> Contains(s, ip) || InNet(cidr, ip)
    {
      ContainsSet(s, ip);
      ContainsSet(r, ip);
    }
  }

  /** With the corrected insertion, a set built from networks holds exactly
    * the addresses of the networks, whatever their order. */
  lemma {:induction false} AddAllFixedSound(s: IPSet, cidrs: seq<Option<IPNet>>)
    requires WfSet(s) && AllFit(cidrs)
    ensures AddAllFixed(s, cidrs).Ok? && WfSet(AddAllFixed(s, cidrs).value)
    ensures forall ip :: Contains(AddAllFixed(s, cidrs).value, ip) <==> Contains(s, ip) || InSomeNet(cidrs, ip)
    decreases |cidrs|
  {
    if |cidrs| > 0 {
      ListCons(cidrs);
      AddFixedSound(s, cidrs[0]);
      AddAllFixedSound(AddFixed(s, cidrs[0]).value, cidrs[1..]);
    }
  }

  /** With the corrected insertion, `NewSet` holds exactly the addresses of
    * its networks, in any order. */
  lemma NewSetFixedSound(cidrs: seq<Option<IPNet>>)
    requires AllFit(cidrs)
    ensures NewSetFixed(cidrs).Ok? && WfSet(NewSetFixed(cidrs).value)
    ensures forall ip :: Contains(NewSetFixed(cidrs).value, ip) <==> InSomeNet(cidrs, ip)
  {
    AddAllFixedSound(IPSet(None), cidrs);
  }
}
