/**
 * Which orders of insertion `ipset.Add`, as written, handles beyond the
 * ascending one. A fork ends where a new network leaves the address of a
 * node it meets, so the fork ends a list of networks can create are the
 * common prefixes of each network's address with the addresses before
 * it, where those are shorter than its mask length. A list none of whose
 * mask lengths is such a point builds a set that holds exactly the
 * addresses of its networks.
 */
module IPSetOrder {
  import opened Results
  import opened Machine
  import opened Bits
  import opened IPSet
  import opened IPSetShape
  import opened Corrected
  import opened IPSetSoundness

  /** The addresses of the nodes of a subtree. */
  function Addrs(n: Node): set<seq<bool>>
  {
    match n
    case Leaf(a, _) => {a}
    case Fork(a, _, l, r) => {a} + Addrs(l) + Addrs(r)
  }

  /** The addresses of the nodes of a set's trie. */
  function SetAddrs(s: IPSet): set<seq<bool>>
  {
    if s.root.None? then {} else Addrs(s.root.value)
  }

  /** The key of a network that can be added; empty otherwise. */
  function KeyOf(cidr: Option<IPNet>): seq<bool>
  {
    if Valid(cidr) then NodeFromNet(cidr).value.addr else []
  }

  /** The bits at which a network with key k and mask length plen can
    * leave a trie whose addresses are among A. */
  function Departures(k: seq<bool>, A: set<seq<bool>>, plen: nat): set<nat>
  {
    set a | a in A && MatchingPrefix(k, a) < plen :: MatchingPrefix(k, a)
  }

  lemma DeparturesGrow(k: seq<bool>, A: set<seq<bool>>, A': set<seq<bool>>, plen: nat)
    requires A <= A'
    ensures Departures(k, A, plen) <= Departures(k, A', plen)
  {
  }

  /** Added in order to a trie whose addresses are among A and whose fork
    * ends are among E, no network meets a fork that ends at its mask
    * length: each mask length is outside the ends so far, and each network
    * adds its key to the addresses and its departures to the ends. */
  ghost predicate OffEnds(A: set<seq<bool>>, E: set<nat>, cidrs: seq<Option<IPNet>>)
    decreases |cidrs|
  {
    || |cidrs| == 0
    || (&& MaskLen(cidrs[0]) !in E
        && OffEnds(A + {KeyOf(cidrs[0])}, E + Departures(KeyOf(cidrs[0]), A, MaskLen(cidrs[0])), cidrs[1..]))
  }

  /** Cutting a node back keeps its addresses. */
  lemma CutKeepsAddrs(n: Node, p: u32)
    ensures Addrs(n.(prefix := p)) == Addrs(n)
  {
  }

  /** A split adds the new key to the addresses and one fork end, where the
    * network leaves the node's address. */
  lemma SplitGrowth(n: Node, off: u32, addr: Key, plen: u32)
    requires Wf(n, off)
    requires off <= MatchingPrefix(addr, n.addr) < plen <= 128
    requires MatchingPrefix(addr, n.addr) < End(n, off)
    ensures var f := Split(n, Add32(off, n.prefix), MatchingPrefix(addr, n.addr), addr, plen);
            && Addrs(f) <= Addrs(n) + {addr}
            && ForkEnds(f, off) <= ForkEnds(n, off) + Departures(addr, Addrs(n), plen)
  {
    var m := MatchingPrefix(addr, n.addr);
    var f := Split(n, Add32(off, n.prefix), m, addr, plen);
    assert End(n, off) <= 128;
    SplitParts(n, off, m, addr, plen);
    CutKeepsEnds(n, off, m);
    CutKeepsAddrs(n, End(n, off) - m);
    assert n.addr in Addrs(n);
    assert m in Departures(addr, Addrs(n), plen);
  }

  /** The corrected insertion adds at most the new key to the addresses of
    * a trie, and only fork ends where the network departs from one of its
    * addresses. */
  lemma {:induction false} FixedGrowth(n: Node, off: u32, addr: Key, plen: u32)
    requires Wf(n, off)
    requires off <= plen <= 128
    requires Agree(addr, n.addr, off)
    ensures Addrs(InsertFixed(n, off, addr, plen)) <= Addrs(n) + {addr}
    ensures ForkEnds(InsertFixed(n, off, addr, plen), off) <= ForkEnds(n, off) + Departures(addr, Addrs(n), plen)
  {
    var m := MatchingPrefix(addr, n.addr);
    var e := End(n, off);
    assert Add32(off, n.prefix) == e;
    MatchingAgree(addr, n.addr, off);
    if m >= plen && plen <= e {
      assert n.addr in Addrs(n);
    } else if m < plen && m < e {
      SplitGrowth(n, off, addr, plen);
    } else if n.Fork? {
      MatchingAgree(addr, n.addr, e);
      ChildOnSide(n, off, addr);
      var c := if Bit(addr, e) then n.right else n.left;
      FixedGrowth(c, e, addr, plen);
      FixedDescends(n, off, addr, plen);
      DescendGrowth(n, off, addr, plen, InsertFixed(c, e, addr, plen));
    }
  }

  /** Replacing the child on the key's side of a fork by a node that adds
    * at most the key to its addresses and its departures to its fork ends
    * adds no more than that to the fork. */
  lemma DescendGrowth(n: Node, off: nat, addr: Key, plen: nat, c': Node)
    requires n.Fork?
    requires var c := if Bit(addr, End(n, off)) then n.right else n.left;
             && Addrs(c') <= Addrs(c) + {addr}
             && ForkEnds(c', End(n, off)) <= ForkEnds(c, End(n, off)) + Departures(addr, Addrs(c), plen)
    ensures var f := if Bit(addr, End(n, off)) then n.(right := c') else n.(left := c');
            && Addrs(f) <= Addrs(n) + {addr}
            && ForkEnds(f, off) <= ForkEnds(n, off) + Departures(addr, Addrs(n), plen)
  {
    var c := if Bit(addr, End(n, off)) then n.right else n.left;
    DeparturesGrow(addr, Addrs(c), Addrs(n), plen);
  }

  /** `ipset.Add` away from fork ends adds at most the network's key to the
    * addresses of a set, and only fork ends where the network departs from
    * one of them. */
  lemma AddGrowth(s: IPSet, cidr: Option<IPNet>)
    requires WfSet(s) && Fits(cidr)
    requires MaskLen(cidr) !in SplitPoints(s)
    ensures Add(s, cidr).Ok?
    ensures SetAddrs(Add(s, cidr).value) <= SetAddrs(s) + {KeyOf(cidr)}
    ensures SplitPoints(Add(s, cidr).value) <= SplitPoints(s) + Departures(KeyOf(cidr), SetAddrs(s), MaskLen(cidr))
  {
    var node := NodeFromNet(cidr).value;
    if s.root.Some? {
      InsertAgreesWithFixed(s.root.value, 0, node.addr, node.prefix);
      FixedGrowth(s.root.value, 0, node.addr, node.prefix);
    }
  }

  /** Adding a list of networks none of which meets a fork ending at its
    * mask length adds exactly their addresses. */
  lemma {:induction false} AddAllOffEnds(s: IPSet, cidrs: seq<Option<IPNet>>, A: set<seq<bool>>, E: set<nat>)
    requires WfSet(s) && AllFit(cidrs)
    requires SetAddrs(s) <= A && SplitPoints(s) <= E
    requires OffEnds(A, E, cidrs)
    ensures AddAll(s, cidrs).Ok? && WfSet(AddAll(s, cidrs).value)
    ensures forall ip :: Contains(AddAll(s, cidrs).value, ip) <==> Contains(s, ip) || InSomeNet(cidrs, ip)
    decreases |cidrs|
  {
    if |cidrs| > 0 {
      var c := cidrs[0];
      ListCons(cidrs);
      AddSound(s, c);
      AddGrowth(s, c);
      DeparturesGrow(KeyOf(c), SetAddrs(s), A, MaskLen(c));
      AddAllOffEnds(Add(s, c).value, cidrs[1..], A + {KeyOf(c)}, E + Departures(KeyOf(c), A, MaskLen(c)));
    }
  }

  /** `NewSet` over a list none of whose networks meets a fork ending at its
    * mask length holds exactly the addresses of its networks. */
  lemma NewSetOffEnds(cidrs: seq<Option<IPNet>>)
    requires AllFit(cidrs) && OffEnds({}, {}, cidrs)
    ensures NewSet(cidrs).Ok? && WfSet(NewSet(cidrs).value)
    ensures forall ip :: Contains(NewSet(cidrs).value, ip) <==> InSomeNet(cidrs, ip)
  {
    AddAllOffEnds(IPSet(None), cidrs, {}, {});
  }

  /** Lists in order of mask length meet no fork at their mask lengths:
    * every departure lies below the mask length that creates it. */
  lemma {:induction false} AscendingOffEnds(A: set<seq<bool>>, E: set<nat>, cidrs: seq<Option<IPNet>>)
    requires Ascending(cidrs)
    requires |cidrs| > 0 ==> forall x :: x in E ==> x < MaskLen(cidrs[0])
    ensures OffEnds(A, E, cidrs)
    decreases |cidrs|
  {
    if |cidrs| > 0 {
      AscendingTail(cidrs);
      AscendingOffEnds(A + {KeyOf(cidrs[0])}, E + Departures(KeyOf(cidrs[0]), A, MaskLen(cidrs[0])), cidrs[1..]);
    }
  }

  /** Networks whose keys, but for equal ones, part before bit b, with mask
    * lengths of at least b, meet no fork at their mask lengths. The last
    * network's departures come after every mask length and do not count. */
  lemma {:induction false} ApartOffEnds(A: set<seq<bool>>, E: set<nat>, cidrs: seq<Option<IPNet>>, b: nat)
    requires AllFit(cidrs)
    requires forall x :: x in E ==> x < b
    requires forall i :: 0 <= i < |cidrs| ==> b <= MaskLen(cidrs[i])
    requires forall a, i :: a in A && 0 <= i < |cidrs| - 1 ==> a == KeyOf(cidrs[i]) || MatchingPrefix(KeyOf(cidrs[i]), a) < b
    requires forall i, j :: 0 <= j < i < |cidrs| - 1 ==>
               KeyOf(cidrs[i]) == KeyOf(cidrs[j]) || MatchingPrefix(KeyOf(cidrs[i]), KeyOf(cidrs[j])) < b
    ensures OffEnds(A, E, cidrs)
    decreases |cidrs|
  {
    if |cidrs| > 1 {
      var k, plen, rest := KeyOf(cidrs[0]), MaskLen(cidrs[0]), cidrs[1..];
      var A', E' := A + {k}, E + Departures(k, A, plen);
      ListCons(cidrs);
      assert |k| == 128 && plen <= 128;
      DeparturesBelow(k, A, plen, b);
      ApartTail(A, cidrs, b);
      ApartOffEnds(A', E', rest, b);
    }
  }

  /** A key that equals or parts before bit b from every address of A
    * departs from them only before b. */
  lemma DeparturesBelow(k: Key, A: set<seq<bool>>, plen: nat, b: nat)
    requires plen <= 128
    requires forall a :: a in A ==> a == k || MatchingPrefix(k, a) < b
    ensures forall x :: x in Departures(k, A, plen) ==> x < b
  {
    forall x | x in Departures(k, A, plen) ensures x < b {
      var a :| a in A && MatchingPrefix(k, a) < plen && x == MatchingPrefix(k, a);
      if a == k {
        MatchingFull(k, k);
      }
    }
  }

  /** The conditions of `ApartOffEnds` pass from a list to its tail, with
    * the first key joining the addresses. */
  lemma ApartTail(A: set<seq<bool>>, cidrs: seq<Option<IPNet>>, b: nat)
    requires |cidrs| > 0
    requires forall i :: 0 <= i < |cidrs| ==> b <= MaskLen(cidrs[i])
    requires forall a, i :: a in A && 0 <= i < |cidrs| - 1 ==> a == KeyOf(cidrs[i]) || MatchingPrefix(KeyOf(cidrs[i]), a) < b
    requires forall i, j :: 0 <= j < i < |cidrs| - 1 ==>
               KeyOf(cidrs[i]) == KeyOf(cidrs[j]) || MatchingPrefix(KeyOf(cidrs[i]), KeyOf(cidrs[j])) < b
    ensures var rest := cidrs[1..];
            && (forall i :: 0 <= i < |rest| ==> b <= MaskLen(rest[i]))
            && (forall a, i :: a in A + {KeyOf(cidrs[0])} && 0 <= i < |rest| - 1 ==> a == KeyOf(rest[i]) || MatchingPrefix(KeyOf(rest[i]), a) < b)
            && (forall i, j :: 0 <= j < i < |rest| - 1 ==>
                  KeyOf(rest[i]) == KeyOf(rest[j]) || MatchingPrefix(KeyOf(rest[i]), KeyOf(rest[j])) < b)
  {
    var rest := cidrs[1..];
    assert forall i :: 0 <= i < |rest| ==> rest[i] == cidrs[i + 1];
  }
}
