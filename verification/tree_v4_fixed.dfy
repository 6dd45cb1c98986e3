/**
 * The insertion loop of treeV4.go with its three guards made to do what
 * its comments and ipset.go's loop say. A network that agrees with a node
 * over the node's whole extent, where that extent ends at or before the
 * network's own mask length, lies inside the node. A leaf then already
 * encloses it, so there is nothing to do (treeV4.go:115-117). A fork is
 * left on the bit after its extent (treeV4.go:120), the bit `Contains`
 * reads. A network subsumes the node only when the node's address agrees
 * with it over the whole mask length and the node ends at or after it, as
 * in ipset.go with the inclusive guard. The split case is as written.
 */
module CorrectedV4 {
  import opened Results
  import opened Machine
  import opened Bits
  import opened IPSet

  /** `InsertV4` with the descend test `matching >= offset + curr.prefix`
    * alone (absorbing at a leaf that ends at or before plen, descending
    * at a fork that ends before it), the branch on the key's bit at the
    * node's extent, and the subsume guard `matching >= plen && plen <=
    * offset`. Only an offset past the mask length still panics. */
  function InsertV4Fixed(n: Node, off: u32, key: seq<bool>, plen: u32): (r: Option<Node>)
    ensures r.Some? ==> r.value.addr == n.addr
    ensures r.Some? <==> off <= plen
  {
    var matching := MatchingPrefix(n.addr, key);
    var offset := Add32(off, n.prefix);
    if off > plen then None
    else if matching >= offset && offset <= plen && n.Leaf? then Some(n)
    else if matching >= offset && offset < plen then
      if !Bit(key, offset) then
        match InsertV4Fixed(n.left, offset, key, plen)
        case None => None
        case Some(l) => Some(n.(left := l))
      else
        match InsertV4Fixed(n.right, offset, key, plen)
        case None => None
        case Some(r) => Some(n.(right := r))
    else if matching >= plen && plen <= offset then Some(Leaf(n.addr, Sub32(plen, off)))
    else if matching < offset && matching < plen then Some(Split(n, offset, matching, key, plen))
    else None
  }

  /** The walk of `Contains` for key from n, whose ancestors' segments add
    * up to off, ends at a leaf whose extent ends at bit e, and key agrees
    * with every node on the way over that node's extent. */
  ghost predicate ReachesLeaf(n: Node, off: nat, key: seq<bool>, e: nat)
  {
    var o := off + n.prefix;
    && Agree(key, n.addr, o)
    && match n
       case Leaf(_, _) => o == e
       case Fork(_, _, l, r) => o < e && ReachesLeaf(if Bit(key, o) then r else l, o, key, e)
  }

  /** Adding again the network of the leaf where `Contains` finds a key
    * (the key masked to that leaf's extent, or any key agreeing with it
    * there) leaves the trie unchanged. */
  lemma {:induction false} ReAddUnchanged(n: Node, off: u32, key: seq<bool>, e: u32)
    requires |key| == 32 && ReachesLeaf(n, off, key, e)
    ensures InsertV4Fixed(n, off, key, e) == Some(n)
  {
    var o := off + n.prefix;
    assert Add32(off, n.prefix) == o;
    assert Agree(n.addr, key, o);
    MatchingAgree(n.addr, key, o);
    if n.Fork? {
      var c := if Bit(key, o) then n.right else n.left;
      ReAddUnchanged(c, o, key, e);
    }
  }

  /** In particular, adding a lone leaf's own network again changes
    * nothing. */
  lemma ReAddLeafUnchanged(key: seq<bool>, plen: u32)
    requires |key| == 32 && plen <= 32
    ensures InsertV4Fixed(Leaf(key, plen), 0, key, plen) == Some(Leaf(key, plen))
  {
    ReAddUnchanged(Leaf(key, plen), 0, key, plen);
  }
}
