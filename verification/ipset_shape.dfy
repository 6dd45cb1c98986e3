/**
 * The shape the ipset.go trie keeps, and what a lookup in it means: the
 * addresses `ContainsAt` accepts are exactly those that agree with some
 * leaf's address over that leaf's cumulative extent.
 */
module IPSetShape {
  import opened Results
  import opened Machine
  import opened Bits
  import opened IPSet

  /** The cumulative extent of n when its ancestors' segments add up to off. */
  function End(n: Node, off: nat): nat
  {
    off + n.prefix
  }

  /** Well-formed trie below an offset: 128-bit addresses; every fork ends
    * before bit 128; each child agrees with its parent over the parent's
    * extent and has the parent's next bit (0 on the left, 1 on the right);
    * children have segments of positive length; a fork's address is the
    * address of the child on its own side; leaves end at or before bit 128. */
  ghost predicate Wf(n: Node, off: nat)
  {
    match n
    case Leaf(a, p) => |a| == 128 && off + p <= 128
    case Fork(a, p, l, r) =>
      var e := off + p;
      && |a| == 128 && e < 128
      && Agree(l.addr, a, e) && !Bit(l.addr, e) && l.prefix > 0
      && Agree(r.addr, a, e) && Bit(r.addr, e) && r.prefix > 0
      && (if Bit(a, e) then r.addr == a else l.addr == a)
      && Wf(l, e) && Wf(r, e)
  }

  /** The structural part of `Wf`, which holds of every trie ipset.go
    * builds: everything `Wf` asks except positive child segments. */
  ghost predicate Shaped(n: Node, off: nat)
  {
    match n
    case Leaf(a, p) => |a| == 128 && off + p <= 128
    case Fork(a, p, l, r) =>
      var e := off + p;
      && |a| == 128 && e < 128
      && Agree(l.addr, a, e) && !Bit(l.addr, e)
      && Agree(r.addr, a, e) && Bit(r.addr, e)
      && (if Bit(a, e) then r.addr == a else l.addr == a)
      && Shaped(l, e) && Shaped(r, e)
  }

  /** A well-formed trie is shaped. */
  lemma {:induction false} WfShaped(n: Node, off: nat)
    requires Wf(n, off)
    ensures Shaped(n, off)
  {
    if n.Fork? {
      WfShaped(n.left, End(n, off));
      WfShaped(n.right, End(n, off));
    }
  }

  /** A set whose trie, if it has one, is shaped from bit 0. */
  ghost predicate ShapedSet(s: IPSet)
  {
    s.root.Some? ==> Shaped(s.root.value, 0)
  }

  /** The set a trie stands for: k agrees with the address of some leaf
    * over that leaf's cumulative extent. */
  ghost predicate InSomeLeaf(n: Node, off: nat, k: seq<bool>)
  {
    match n
    case Leaf(a, p) => Agree(k, a, off + p)
    case Fork(a, p, l, r) => InSomeLeaf(l, off + p, k) || InSomeLeaf(r, off + p, k)
  }

  /** A key in some leaf agrees with the subtree's own address over the
    * subtree's extent. */
  lemma {:induction false} LeafAgreesWithRoot(n: Node, off: nat, k: seq<bool>)
    requires Wf(n, off) && InSomeLeaf(n, off, k)
    ensures Agree(k, n.addr, End(n, off))
  {
    match n
    case Leaf(_, _) =>
    case Fork(a, p, l, r) =>
      var e := off + p;
      var c := if InSomeLeaf(l, e, k) then l else r;
      LeafAgreesWithRoot(c, e, k);
  }

  /** Every subtree holds its own address. */
  lemma {:induction false} SelfCovered(n: Node, off: nat)
    requires Wf(n, off)
    ensures InSomeLeaf(n, off, n.addr)
  {
    match n
    case Leaf(_, _) =>
    case Fork(a, p, l, r) =>
      if Bit(a, off + p) { SelfCovered(r, off + p); } else { SelfCovered(l, off + p); }
  }

  /** A key that agrees with a fork over its extent is in no leaf of the
    * child on the other side of its next bit. */
  lemma OtherSideEmpty(n: Node, off: nat, k: Key)
    requires Wf(n, off) && n.Fork?
    requires Agree(k, n.addr, End(n, off))
    ensures !InSomeLeaf(if Bit(k, End(n, off)) then n.left else n.right, End(n, off), k)
  {
    var e := End(n, off);
    var other := if Bit(k, e) then n.left else n.right;
    assert k[e] != other.addr[e];
    if InSomeLeaf(other, e, k) {
      LeafAgreesWithRoot(other, e, k);
    }
  }

  /** The walk of `ipset.Contains` accepts exactly the keys of the set the
    * trie stands for. */
  lemma {:induction false} ContainsMeaning(n: Node, off: u32, k: Key)
    requires Wf(n, off)
    ensures ContainsAt(n, off, k) <==> InSomeLeaf(n, off, k)
  {
    var m := MatchingPrefix(k, n.addr);
    var e := End(n, off);
    assert Add32(off, n.prefix) == e;
    MatchingAgree(k, n.addr, e);
    if m < e {
      if InSomeLeaf(n, off, k) {
        LeafAgreesWithRoot(n, off, k);
      }
    } else if n.Fork? {
      if m == 128 {
        MatchingFull(k, n.addr);
        SelfCovered(n, off);
      } else {
        var c := if Bit(k, e) then n.right else n.left;
        ContainsMeaning(c, e, k);
        OtherSideEmpty(n, off, k);
      }
    }
  }

  /** A set whose trie, if it has one, is well formed from bit 0. */
  ghost predicate WfSet(s: IPSet)
  {
    s.root.Some? ==> Wf(s.root.value, 0)
  }

  /** ip lies in the network: both encode, and the key of ip agrees with
    * the network's address over the network's mask length. */
  predicate InNet(cidr: Option<IPNet>, ip: seq<byte>)
  {
    && NodeFromNet(cidr).Ok? && Uint128FromIP(ip).Ok?
    && Agree(Uint128FromIP(ip).value, NodeFromNet(cidr).value.addr, NodeFromNet(cidr).value.prefix)
  }

  /** The network's mask length in the 128-bit keyspace; 0 for a network
    * that cannot be added. */
  function MaskLen(cidr: Option<IPNet>): nat
  {
    if Valid(cidr) then NodeFromNet(cidr).value.prefix else 0
  }

  /** A network that can be added and whose mask length fits the keyspace. */
  predicate Fits(cidr: Option<IPNet>)
  {
    Valid(cidr) && MaskLen(cidr) <= 128
  }

  /** On a well-formed set, `Contains` answers whether the address encodes
    * to a key in the set the trie stands for. */
  lemma ContainsSet(s: IPSet, ip: seq<byte>)
    requires WfSet(s)
    ensures Contains(s, ip)
        <==> s.root.Some? && Uint128FromIP(ip).Ok? && InSomeLeaf(s.root.value, 0, Uint128FromIP(ip).value)
  {
    if s.root.Some? && Uint128FromIP(ip).Ok? {
      ContainsMeaning(s.root.value, 0, Uint128FromIP(ip).value);
    }
  }

  /** Every network of the list can be added and fits the keyspace. */
  predicate AllFit(cidrs: seq<Option<IPNet>>)
  {
    forall i :: 0 <= i < |cidrs| ==> Fits(cidrs[i])
  }

  /** ip lies in one of the networks of the list. */
  predicate InSomeNet(cidrs: seq<Option<IPNet>>, ip: seq<byte>)
  {
    exists i :: 0 <= i < |cidrs| && InNet(cidrs[i], ip)
  }

  lemma ListCons(cidrs: seq<Option<IPNet>>)
    requires |cidrs| > 0
    ensures AllFit(cidrs) <==> Fits(cidrs[0]) && AllFit(cidrs[1..])
    ensures forall ip :: InSomeNet(cidrs, ip) <==> InNet(cidrs[0], ip) || InSomeNet(cidrs[1..], ip)
  {
    var rest := cidrs[1..];
    assert forall i :: 0 <= i < |rest| ==> rest[i] == cidrs[i + 1];
    forall ip
      ensures InSomeNet(cidrs, ip) <==> InNet(cidrs[0], ip) || InSomeNet(rest, ip)
    {
      if InSomeNet(cidrs, ip) {
        var i :| 0 <= i < |cidrs| && InNet(cidrs[i], ip);
        if i > 0 {
          assert InNet(rest[i - 1], ip);
        }
      }
      if InSomeNet(rest, ip) {
        var i :| 0 <= i < |rest| && InNet(rest[i], ip);
        assert InNet(cidrs[i + 1], ip);
      }
    }
  }
}
