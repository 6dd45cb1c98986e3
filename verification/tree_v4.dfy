/**
 * The IPv4-only trie of treeV4.go over the arena of module ArenaV4. The
 * arena is a value here; each operation returns the arena it leaves behind.
 */
module TreeV4 {
  import opened Results
  import opened Machine
  import opened Bits
  import opened IPSet
  import opened Encoding
  import opened ArenaV4
  import opened WalkV4
  import opened InvV4

  /** `ip.To4()`: four bytes as they are, an IPv4-mapped sixteen-byte
    * address as its last four, and nothing for any other address. */
  function To4(ip: seq<byte>): (r: Option<seq<byte>>)
    ensures r.Some? <==> |ip| == 4 || (|ip| == 16 && ip[..12] == V4_IN_V6)
    ensures r.Some? ==> |r.value| == 4 && To16(r.value) == To16(ip)
  {
    if |ip| == 4 then Some(ip)
    else if |ip| == 16 && ip[..12] == V4_IN_V6 then
      assert ip == V4_IN_V6 + ip[12..];
      Some(ip[12..])
    else None
  }

  /** `cidrV4FromNet`. The Go code panics on an address without an IPv4
    * form; here that is excluded by the precondition. */
  function CidrV4FromNet(cidr: IPNet): (r: CidrV4)
    requires To4(cidr.ip).Some?
    ensures cidr.ones < TWO_32 ==> r.prefix == cidr.ones
    ensures r.addr < TWO_32 && PutBigEndian(r.addr, 4) == To4(cidr.ip).value
  {
    var ip4 := To4(cidr.ip).value;
    assert Pow256(4) == TWO_32;
    WriteAfterRead(ip4);
    CidrV4(BigEndian(ip4), ToU32(cidr.ones))
  }

  /** The IPv4 network as `cidrV4FromNet` reads it and as `nodeFromNet`
    * reads it are the same network: the 128-bit key is the IPv4-mapped
    * form of the 32-bit address. */
  lemma CidrV4MatchesNodeFromNet(cidr: IPNet)
    requires To4(cidr.ip).Some? && cidr.bits == 32 && cidr.ones <= 32
    ensures var c := CidrV4FromNet(cidr);
            NodeFromNet(Some(cidr)) == Ok(Leaf(FromHiLo(0, 0xffff * TWO_32 + c.addr), 96 + c.prefix))
  {
    var ip4 := To4(cidr.ip).value;
    assert Uint128FromIP(cidr.ip) == Uint128FromIP(ip4);
    EncodeV4Value(ip4);
  }

  /** `ensureCapacity`: with more than ten free slots nothing changes;
    * otherwise the arena grows to twice its length plus two, with zero
    * nodes, and exactly the new indices join the free list in order. */
  method EnsureCapacity(t: TreeV4) returns (t': TreeV4)
    ensures |t.free| > 10 ==> t' == t
    ensures |t.free| <= 10 ==>
      && |t'.nodes| == 2 * (|t.nodes| + 1)
      && t'.nodes[..|t.nodes|] == t.nodes
      && (forall i :: |t.nodes| <= i < |t'.nodes| ==> t'.nodes[i] == ZERO)
      && |t'.free| == |t.free| + |t.nodes| + 2
      && t'.free[..|t.free|] == t.free
      && (forall j :: |t.free| <= j < |t'.free| ==> t'.free[j] == |t.nodes| + (j - |t.free|))
  {
    if |t.free| > 10 {
      return t;
    }
    var n := |t.nodes|;
    var temp := t.nodes + seq(n + 2, _ => ZERO);
    var free := t.free;
    var i := n;
    while i < |temp|
      invariant n <= i <= |temp|
      invariant |free| == |t.free| + (i - n)
      invariant free[..|t.free|] == t.free
      invariant forall j :: |t.free| <= j < |free| ==> free[j] == n + (j - |t.free|)
    {
      free := free + [i];
      i := i + 1;
    }
    t' := TreeV4(temp, free);
  }

  /** `getFreeNode`: the head of the free list, which leaves the list. */
  method GetFreeNode(t: TreeV4) returns (idx: nat, t': TreeV4)
    requires |t.free| > 0
    ensures [idx] + t'.free == t.free && t'.nodes == t.nodes
  {
    idx := t.free[0];
    t' := t.(free := t.free[1..]);
  }

  /** Every index in the subtrees of roots lies in the arena and is not 0,
    * and the non-zero children of such an index are there too. */
  lemma {:induction false} SubtreesStep(nodes: seq<NodeV4>, rank: seq<nat>, roots: seq<nat>, x: nat)
    requires Arena(nodes, rank) && forall k :: 0 <= k < |roots| ==> roots[k] < |nodes|
    requires x in Subtrees(nodes, rank, roots)
    ensures 0 < x < |nodes|
    ensures nodes[x].left != 0 ==> nodes[x].left in Subtrees(nodes, rank, roots)
    ensures nodes[x].right != 0 ==> nodes[x].right in Subtrees(nodes, rank, roots)
  {
    if roots[0] != 0 && x in Subtree(nodes, rank, roots[0]) {
      SubtreeTransitive(nodes, rank, roots[0], x);
    } else {
      SubtreesStep(nodes, rank, roots[1..], x);
    }
  }

  /** Every non-zero root is in the subtrees of the roots. */
  lemma {:induction false} RootsInSubtrees(nodes: seq<NodeV4>, rank: seq<nat>, roots: seq<nat>)
    requires Arena(nodes, rank) && forall k :: 0 <= k < |roots| ==> roots[k] < |nodes|
    ensures forall k :: 0 <= k < |roots| && roots[k] != 0 ==> roots[k] in Subtrees(nodes, rank, roots)
  {
    if |roots| > 0 {
      RootsInSubtrees(nodes, rank, roots[1..]);
      assert forall k :: 1 <= k < |roots| ==> roots[k] == roots[1..][k - 1];
    }
  }

  /** A set that holds a root and is closed under non-zero child links
    * holds its whole subtree. */
  lemma {:induction false} ClosedHoldsSubtree(nodes: seq<NodeV4>, rank: seq<nat>, z: set<nat>, j: nat)
    requires Arena(nodes, rank) && j < |nodes| && j in z
    requires forall y :: y in z && y < |nodes| ==>
      (nodes[y].left != 0 ==> nodes[y].left in z) && (nodes[y].right != 0 ==> nodes[y].right in z)
    ensures Subtree(nodes, rank, j) <= z
    decreases rank[j]
  {
    var n := nodes[j];
    if n.left != 0 {
      ClosedHoldsSubtree(nodes, rank, z, n.left);
      ClosedHoldsSubtree(nodes, rank, z, n.right);
    }
  }

  /** The same for several roots. */
  lemma {:induction false} ClosedHoldsSubtrees(nodes: seq<NodeV4>, rank: seq<nat>, z: set<nat>, roots: seq<nat>)
    requires Arena(nodes, rank) && forall k :: 0 <= k < |roots| ==> roots[k] < |nodes|
    requires forall k :: 0 <= k < |roots| ==> roots[k] != 0 ==> roots[k] in z
    requires forall y :: y in z && y < |nodes| ==>
      (nodes[y].left != 0 ==> nodes[y].left in z) && (nodes[y].right != 0 ==> nodes[y].right in z)
    ensures Subtrees(nodes, rank, roots) <= z
  {
    if |roots| > 0 {
      if roots[0] != 0 {
        ClosedHoldsSubtree(nodes, rank, z, roots[0]);
      }
      ClosedHoldsSubtrees(nodes, rank, z, roots[1..]);
    }
  }

  /** The indices below n outside z. */
  ghost function Unfreed(n: nat, z: set<nat>): set<nat>
  {
    set i | 0 <= i < n && i !in z
  }

  lemma UnfreedShrinks(n: nat, z: set<nat>, c: nat)
    requires c < n && c !in z
    ensures Unfreed(n, z + {c}) < Unfreed(n, z)
  {
    assert c in Unfreed(n, z);
  }

  /** `freeUpNodes`: every node in the subtrees of idxs is zeroed and its
    * index appended to the free list; index 0 and every other node are
    * left alone. Each node is zeroed when it is visited, so a node seen a
    * second time has no children left to push and the loop ends whatever
    * the links are. */
  method FreeUpNodes(t: TreeV4, idxs: seq<nat>, ghost rank: seq<nat>) returns (t': TreeV4)
    requires Arena(t.nodes, rank)
    requires forall k :: 0 <= k < |idxs| ==> idxs[k] < |t.nodes|
    ensures |t'.nodes| == |t.nodes|
    ensures forall i :: 0 <= i < |t.nodes| ==>
      t'.nodes[i] == if i in Subtrees(t.nodes, rank, idxs) then ZERO else t.nodes[i]
    ensures |t'.free| >= |t.free| && t'.free[..|t.free|] == t.free
    ensures forall j :: |t.free| <= j < |t'.free| ==> t'.free[j] in Subtrees(t.nodes, rank, idxs)
    ensures forall i :: i in Subtrees(t.nodes, rank, idxs) ==> i in t'.free[|t.free|..]
    ensures Forest(t.nodes, rank, idxs) ==> NoDup(t'.free[|t.free|..])
  {
    ghost var z: set<nat> := {};
    ghost var added: seq<nat> := [];
    FreeInit(t.nodes, rank, idxs);
    assert t.free + added == t.free;
    var nodes, free, work := t.nodes, t.free, idxs;
    while |work| > 0
      invariant FreeState(t.nodes, rank, idxs, z, added, nodes, work)
      invariant free == t.free + added
      invariant Forest(t.nodes, rank, idxs) ==> FreeDistinct(t.nodes, rank, z, added, work)
      decreases Unfreed(|t.nodes|, z), |work|
    {
      nodes, free, work, z, added := FreeOne(t.nodes, rank, idxs, z, added, nodes, free, work);
      assert free == t.free + added;
    }
    FreeDone(t.nodes, rank, idxs, z, added, nodes);
    assert free[..|t.free|] == t.free && free[|t.free|..] == added;
    t' := TreeV4(nodes, free);
  }

  /** One turn of the loop of `freeUpNodes`: pop the head of the worklist;
    * unless it is 0, push its non-zero children, zero it and append it to
    * the free list. */
  method FreeOne(ghost orig: seq<NodeV4>, ghost rank: seq<nat>, ghost idxs: seq<nat>, ghost z: set<nat>,
                 ghost added: seq<nat>, nodes: seq<NodeV4>, free: seq<nat>, work: seq<nat>)
    returns (nodes': seq<NodeV4>, free': seq<nat>, work': seq<nat>, ghost z': set<nat>, ghost added': seq<nat>)
    requires Arena(orig, rank) && forall k :: 0 <= k < |idxs| ==> idxs[k] < |orig|
    requires FreeState(orig, rank, idxs, z, added, nodes, work)
    requires |work| > 0
    ensures FreeState(orig, rank, idxs, z', added', nodes', work')
    ensures work[0] == 0 ==> free' == free && added' == added
    ensures work[0] != 0 ==> free' == free + [work[0]] && added' == added + [work[0]]
    ensures (z' == z && |work'| < |work|) || Unfreed(|orig|, z') < Unfreed(|orig|, z)
    ensures FreeDistinct(orig, rank, z, added, work) ==> FreeDistinct(orig, rank, z', added', work')
  {
    var cur := work[0];
    work' := work[1..];
    if cur == 0 {
      FreeSkip(orig, rank, idxs, z, added, nodes, work);
      return nodes, free, work', z, added;
    }
    FreeStep(orig, rank, idxs, z, added, nodes, work);
    if FreeDistinct(orig, rank, z, added, work) {
      FreeStepDistinct(orig, rank, idxs, z, added, nodes, work);
    }
    var node := nodes[cur];
    if node.left != 0 {
      work' := work' + [node.left];
    }
    if node.right != 0 {
      work' := work' + [node.right];
    }
    if cur !in z {
      UnfreedShrinks(|orig|, z, cur);
    }
    nodes' := nodes[cur := ZERO];
    free' := free + [cur];
    z', added' := z + {cur}, added + [cur];
  }

  /** The loop state of `freeUpNodes` started from the arena `orig` with
    * the worklist `idxs`: the nodes in z have been zeroed and are exactly
    * those appended so far, all of them lie in the subtrees of idxs, and
    * whatever of those subtrees hangs off z or off idxs is zeroed or still
    * on the worklist. */
  ghost predicate FreeState(orig: seq<NodeV4>, rank: seq<nat>, idxs: seq<nat>, z: set<nat>,
                            added: seq<nat>, nodes: seq<NodeV4>, work: seq<nat>)
    requires Arena(orig, rank) && forall k :: 0 <= k < |idxs| ==> idxs[k] < |orig|
  {
    && |nodes| == |orig|
    && (forall i :: 0 <= i < |nodes| ==> nodes[i] == if i in z then ZERO else orig[i])
    && (forall j :: 0 <= j < |added| ==> added[j] in z)
    && (forall y :: y in z ==> y in added)
    && z <= Subtrees(orig, rank, idxs)
    && (forall y :: y in z ==> 0 < y < |nodes|)
    && (forall k :: 0 <= k < |work| ==> work[k] < |nodes| && (work[k] != 0 ==> work[k] in Subtrees(orig, rank, idxs)))
    && (forall y :: y in z ==>
         (orig[y].left != 0 ==> orig[y].left in z || orig[y].left in work)
         && (orig[y].right != 0 ==> orig[y].right in z || orig[y].right in work))
    && (forall k :: 0 <= k < |idxs| ==> idxs[k] != 0 ==> idxs[k] in z || idxs[k] in work)
  }

  /** The entries of roots that are not 0 head trees whose index sets are
    * pairwise disjoint. */
  ghost predicate Forest(nodes: seq<NodeV4>, rank: seq<nat>, roots: seq<nat>)
    requires Arena(nodes, rank) && forall k :: 0 <= k < |roots| ==> roots[k] < |nodes|
  {
    || |roots| == 0
    || (&& (roots[0] != 0 ==> IsTree(nodes, rank, roots[0]) && Subtree(nodes, rank, roots[0]) !! Subtrees(nodes, rank, roots[1..]))
        && Forest(nodes, rank, roots[1..]))
  }

  /** A tree disjoint from a forest extends it at the end. */
  lemma {:induction false} ForestSnoc(nodes: seq<NodeV4>, rank: seq<nat>, roots: seq<nat>, x: nat)
    requires Arena(nodes, rank) && x < |nodes| && forall k :: 0 <= k < |roots| ==> roots[k] < |nodes|
    requires Forest(nodes, rank, roots)
    requires x != 0 ==> IsTree(nodes, rank, x) && Subtree(nodes, rank, x) !! Subtrees(nodes, rank, roots)
    ensures Forest(nodes, rank, roots + [x])
    ensures Subtrees(nodes, rank, roots + [x]) == Subtrees(nodes, rank, roots) + (if x == 0 then {} else Subtree(nodes, rank, x))
  {
    if |roots| == 0 {
      assert roots + [x] == [x];
      assert [x][1..] == [];
    } else {
      assert (roots + [x])[1..] == roots[1..] + [x];
      ForestSnoc(nodes, rank, roots[1..], x);
    }
  }

  /** The part of the loop state of `freeUpNodes` that holds when it starts
    * from a forest: the worklist is a forest disjoint from what has been
    * zeroed, so nothing is appended twice. */
  ghost predicate FreeDistinct(orig: seq<NodeV4>, rank: seq<nat>, z: set<nat>, added: seq<nat>, work: seq<nat>)
    requires Arena(orig, rank) && forall k :: 0 <= k < |work| ==> work[k] < |orig|
  {
    && Forest(orig, rank, work)
    && z !! Subtrees(orig, rank, work)
    && NoDup(added)
  }

  /** Zeroing a popped index that heads a tree of the forest keeps the
    * forest disjoint from the zeroed indices. */
  lemma FreeStepDistinct(orig: seq<NodeV4>, rank: seq<nat>, idxs: seq<nat>, z: set<nat>,
                         added: seq<nat>, nodes: seq<NodeV4>, work: seq<nat>)
    requires Arena(orig, rank) && forall k :: 0 <= k < |idxs| ==> idxs[k] < |orig|
    requires FreeState(orig, rank, idxs, z, added, nodes, work)
    requires |work| > 0 && work[0] != 0
    requires FreeDistinct(orig, rank, z, added, work)
    ensures var cur := work[0];
            var n := nodes[cur];
            var w1 := if n.left != 0 then work[1..] + [n.left] else work[1..];
            var w2 := if n.right != 0 then w1 + [n.right] else w1;
            FreeDistinct(orig, rank, z + {cur}, added + [cur], w2)
  {
    var cur := work[0];
    var rest := work[1..];
    assert cur in Subtree(orig, rank, cur);
    assert cur !in z;
    var n := nodes[cur];
    assert n == orig[cur];
    if n.left != 0 {
      SubtreeTransitive(orig, rank, cur, n.left);
      SubtreeTransitive(orig, rank, cur, n.right);
      if cur in Subtree(orig, rank, n.left) {
        SubtreeTransitive(orig, rank, n.left, cur);
      }
      if cur in Subtree(orig, rank, n.right) {
        SubtreeTransitive(orig, rank, n.right, cur);
      }
      ForestSnoc(orig, rank, rest, n.left);
      ForestSnoc(orig, rank, rest + [n.left], n.right);
    }
  }

  /** The loop state before the first turn. */
  lemma FreeInit(orig: seq<NodeV4>, rank: seq<nat>, idxs: seq<nat>)
    requires Arena(orig, rank) && forall k :: 0 <= k < |idxs| ==> idxs[k] < |orig|
    ensures FreeState(orig, rank, idxs, {}, [], orig, idxs)
  {
    RootsInSubtrees(orig, rank, idxs);
  }

  /** With the worklist empty, z is exactly the subtrees of idxs. */
  lemma FreeDone(orig: seq<NodeV4>, rank: seq<nat>, idxs: seq<nat>, z: set<nat>,
                 added: seq<nat>, nodes: seq<NodeV4>)
    requires Arena(orig, rank) && forall k :: 0 <= k < |idxs| ==> idxs[k] < |orig|
    requires FreeState(orig, rank, idxs, z, added, nodes, [])
    ensures |nodes| == |orig|
    ensures forall i :: 0 <= i < |orig| ==> nodes[i] == if i in Subtrees(orig, rank, idxs) then ZERO else orig[i]
    ensures forall j :: 0 <= j < |added| ==> added[j] in Subtrees(orig, rank, idxs)
    ensures forall i :: i in Subtrees(orig, rank, idxs) ==> i in added
  {
    ClosedHoldsSubtrees(orig, rank, z, idxs);
  }

  /** Popping index 0 keeps the loop state. */
  lemma FreeSkip(orig: seq<NodeV4>, rank: seq<nat>, idxs: seq<nat>, z: set<nat>,
                 added: seq<nat>, nodes: seq<NodeV4>, work: seq<nat>)
    requires Arena(orig, rank) && forall k :: 0 <= k < |idxs| ==> idxs[k] < |orig|
    requires FreeState(orig, rank, idxs, z, added, nodes, work)
    requires |work| > 0 && work[0] == 0
    ensures FreeState(orig, rank, idxs, z, added, nodes, work[1..])
    ensures FreeDistinct(orig, rank, z, added, work) ==> FreeDistinct(orig, rank, z, added, work[1..])
  {
    assert forall x :: x in work && x != 0 ==> x in work[1..];
  }

  /** Zeroing the popped index and pushing its children keeps the loop state. */
  lemma FreeStep(orig: seq<NodeV4>, rank: seq<nat>, idxs: seq<nat>, z: set<nat>,
                 added: seq<nat>, nodes: seq<NodeV4>, work: seq<nat>)
    requires Arena(orig, rank) && forall k :: 0 <= k < |idxs| ==> idxs[k] < |orig|
    requires FreeState(orig, rank, idxs, z, added, nodes, work)
    requires |work| > 0 && work[0] != 0
    ensures work[0] < |nodes| && (work[0] in z ==> nodes[work[0]] == ZERO)
    ensures var cur := work[0];
            var n := nodes[cur];
            var w1 := if n.left != 0 then work[1..] + [n.left] else work[1..];
            var w2 := if n.right != 0 then w1 + [n.right] else w1;
            FreeState(orig, rank, idxs, z + {cur}, added + [cur], nodes[cur := ZERO], w2)
  {
    var cur := work[0];
    SubtreesStep(orig, rank, idxs, cur);
    var n := nodes[cur];
    var w1 := if n.left != 0 then work[1..] + [n.left] else work[1..];
    var w2 := if n.right != 0 then w1 + [n.right] else w1;
    assert forall x :: x in work && x != cur ==> x in w2;
    assert n.left != 0 ==> n.left in w2;
    assert n.right != 0 ==> n.right in w2;
  }

  /** `treeV4.Contains`: a nil address is not contained; otherwise the walk
    * of ipset.go over 32-bit keys. The Go code indexes node 0 and reads
    * `To4` unchecked, so the arena must be non-empty and the address an
    * IPv4 one. */
  method Contains(t: TreeV4, ip: Option<seq<byte>>, ghost rank: seq<nat>) returns (r: bool)
    requires Arena(t.nodes, rank) && |t.nodes| > 0
    requires ip.Some? ==> To4(ip.value).Some?
    ensures ip.None? ==> !r
    ensures ip.Some? ==>
      r == ContainsAt(ToNode(t.nodes, rank, 0), 0, NatToBits(BigEndian(To4(ip.value).value), 32))
  {
    if ip.None? {
      return false;
    }
    assert Pow256(4) == TWO_32;
    var addr: u32 := BigEndian(To4(ip.value).value);
    ghost var key := NatToBits(addr, 32);
    ghost var goal := ContainsAt(ToNode(t.nodes, rank, 0), 0, key);
    var curr: nat := 0;
    var offset: u32 := 0;
    while true
      invariant curr < |t.nodes|
      invariant ContainsAt(ToNode(t.nodes, rank, curr), offset, key) == goal
      decreases rank[curr]
    {
      var node := t.nodes[curr];
      var matching := Matching32(addr, node.addr);
      offset := Add32(offset, node.prefix);
      if matching < offset {
        return false;
      }
      if node.left == 0 || matching == 32 {
        return true;
      }
      ShiftedBit(addr, offset);
      if !LowBit32(addr, Sub32(32, Add32(offset, 1))) {
        curr := node.left;
      } else {
        curr := node.right;
      }
    }
  }

  /** The subsume case of `treeV4.Add` at slot `at`, reached with offset o:
    * the node's segment is cut back to end at the new prefix length, its
    * subtrees are freed, and it becomes a leaf. */
  method SubsumeAt(t: TreeV4, ghost rank: seq<nat>, at: nat, o: u32, c: CidrV4) returns (t': TreeV4)
    requires Inv(t, rank) && |t.nodes| > 0 && at < |t.nodes|
    requires Walk(t.nodes, rank, 0, 0, c) == Subsumes(at, o)
    requires SubsumeCase(t.nodes[at], o, c)
    ensures Inv(t', rank)
    ensures Abs(t', rank) == InsertV4(ToNode(t.nodes, rank, 0), 0, NatToBits(c.addr, 32), c.prefix)
  {
    var cu := t.nodes[at];
    var nodes := t.nodes[at := cu.(prefix := Sub32(c.prefix, o))];
    ghost var gone := SubsumeFrees(t, rank, nodes, at, Sub32(c.prefix, o));
    var t2 := FreeUpNodes(TreeV4(nodes, t.free), [cu.left, cu.right], rank);
    nodes := t2.nodes[at := t2.nodes[at].(left := 0, right := 0)];
    t' := TreeV4(nodes, t2.free);
    SubsumeDone(t, rank, at, o, c, gone, t2, t');
  }

  /** Before `freeUpNodes` in the subsume case: the slots it frees are the
    * subtree at `at` without `at`, and they form a forest. */
  lemma SubsumeFrees(t: TreeV4, rank: seq<nat>, nodes: seq<NodeV4>, at: nat, p: u32) returns (gone: set<nat>)
    requires Inv(t, rank) && |t.nodes| > 0 && at < |t.nodes| && at in Subtree(t.nodes, rank, 0)
    requires nodes == t.nodes[at := t.nodes[at].(prefix := p)]
    ensures gone == Subtree(t.nodes, rank, at) - {at}
    ensures Arena(nodes, rank)
    ensures var cu := t.nodes[at];
            && Subtrees(nodes, rank, [cu.left, cu.right]) == gone
            && Forest(nodes, rank, [cu.left, cu.right])
  {
    var cu := t.nodes[at];
    gone := Subtree(t.nodes, rank, at) - {at};
    SameLinksArena(t.nodes, rank, nodes);
    if cu.left == 0 {
      PairSubtrees(nodes, rank, 0, 0);
    } else {
      IsTreeBelow(t.nodes, rank, 0, at);
      var sl, sr := Subtree(t.nodes, rank, cu.left), Subtree(t.nodes, rank, cu.right);
      if at in sl {
        SubtreeTransitive(t.nodes, rank, cu.left, at);
      }
      if at in sr {
        SubtreeTransitive(t.nodes, rank, cu.right, at);
      }
      SameLinks(t.nodes, rank, nodes, cu.left);
      SameLinks(t.nodes, rank, nodes, cu.right);
      PairSubtrees(nodes, rank, cu.left, cu.right);
      RemoveHead(at, sl, sr);
    }
  }

  lemma RemoveHead(i: nat, a: set<nat>, b: set<nat>)
    requires i !in a && i !in b
    ensures {i} + a + b - {i} == a + b
  {
  }

  /** The subtrees of two children: a pair of zeros has none, and two
    * disjoint trees form a forest. */
  lemma PairSubtrees(nodes: seq<NodeV4>, rank: seq<nat>, a: nat, b: nat)
    requires Arena(nodes, rank) && a < |nodes| && b < |nodes|
    requires a == 0 <==> b == 0
    requires a != 0 ==> IsTree(nodes, rank, a) && IsTree(nodes, rank, b) && Subtree(nodes, rank, a) !! Subtree(nodes, rank, b)
    ensures Subtrees(nodes, rank, [a, b]) == if a == 0 then {} else Subtree(nodes, rank, a) + Subtree(nodes, rank, b)
    ensures Forest(nodes, rank, [a, b])
  {
    var none: seq<nat> := [];
    assert [a, b][1..] == [b];
    assert [b][1..] == none;
    assert Subtrees(nodes, rank, none) == {};
    var sb := if b == 0 then {} else Subtree(nodes, rank, b);
    assert Subtrees(nodes, rank, [b]) == sb + Subtrees(nodes, rank, none);
    assert Forest(nodes, rank, [b]);
  }

  /** After the subsume case: the arena is well-formed and stands for the
    * inserted trie. */
  lemma SubsumeDone(t: TreeV4, rank: seq<nat>, at: nat, o: u32, c: CidrV4, gone: set<nat>, t2: TreeV4, t': TreeV4)
    requires Inv(t, rank) && |t.nodes| > 0 && at < |t.nodes|
    requires Walk(t.nodes, rank, 0, 0, c) == Subsumes(at, o)
    requires SubsumeCase(t.nodes[at], o, c)
    requires gone == Subtree(t.nodes, rank, at) - {at}
    requires |t2.nodes| == |t.nodes|
    requires forall i :: 0 <= i < |t.nodes| ==>
      t2.nodes[i] == if i in gone then ZERO else if i == at then t.nodes[at].(prefix := Sub32(c.prefix, o)) else t.nodes[i]
    requires |t2.free| >= |t.free| && t2.free[..|t.free|] == t.free
    requires forall j :: |t.free| <= j < |t2.free| ==> t2.free[j] in gone
    requires forall i :: i in gone ==> i in t2.free[|t.free|..]
    requires NoDup(t2.free[|t.free|..])
    requires t' == TreeV4(t2.nodes[at := t2.nodes[at].(left := 0, right := 0)], t2.free)
    ensures Inv(t', rank)
    ensures Abs(t', rank) == InsertV4(ToNode(t.nodes, rank, 0), 0, NatToBits(c.addr, 32), c.prefix)
  {
    var n1, n2 := t.nodes, t'.nodes;
    SubtreeInRange(n1, rank, at);
    SubsumeShape(n1, rank, n2, at, o, c, gone);
    var added := t2.free[|t.free|..];
    SliceAppend(t2.free, t.free);
    forall k | 0 <= k < |added|
      ensures added[k] in gone
    {
      assert added[k] == t2.free[|t.free| + k];
    }
    RemoveInv(n1, t.free, n2, rank, gone, added);
  }

  /** The arena after the subsume case stands for the inserted trie; the
    * slots it drops from the tree are zero and nothing else changes. */
  lemma SubsumeShape(n1: seq<NodeV4>, rank: seq<nat>, n2: seq<NodeV4>, at: nat, o: u32, c: CidrV4, gone: set<nat>)
    requires Arena(n1, rank) && |n1| > 0 && at < |n1| && IsTree(n1, rank, 0)
    requires Walk(n1, rank, 0, 0, c) == Subsumes(at, o)
    requires SubsumeCase(n1[at], o, c)
    requires gone == Subtree(n1, rank, at) - {at}
    requires |n2| == |n1|
    requires forall i :: 0 <= i < |n1| ==>
      n2[i] == if i in gone then ZERO else if i == at then n1[at].(prefix := Sub32(c.prefix, o), left := 0, right := 0) else n1[i]
    ensures Arena(n2, rank) && IsTree(n2, rank, 0)
    ensures gone <= Subtree(n1, rank, 0) && Subtree(n2, rank, 0) == Subtree(n1, rank, 0) - gone
    ensures forall j :: j in gone ==> j < |n2| && n2[j] == ZERO
    ensures forall j :: 0 <= j < |n1| && j !in Subtree(n1, rank, 0) ==> n2[j] == n1[j]
    ensures Some(ToNode(n2, rank, 0)) == InsertV4(ToNode(n1, rank, 0), 0, NatToBits(c.addr, 32), c.prefix)
  {
    assert at in Subtree(n1, rank, 0) && gone <= Subtree(n1, rank, 0) by {
      WalkMatches(n1, rank, 0, 0, c);
      SubtreeTransitive(n1, rank, 0, at);
    }
    SubsumeLevel(n1, rank, n2, at, o, c, gone);
    PathReplace(n1, rank, n2, rank, 0, 0, c, gone, {});
    NoneTaken(Subtree(n1, rank, 0) - gone);
  }

  lemma NoneTaken(s: set<nat>)
    ensures s + {} == s
  {
  }

  lemma NoneGone(s: set<nat>, t: set<nat>)
    ensures s - {} + t == s + t
  {
  }

  /** The three-way split at the node itself: at `at` the new arena stands
    * for the function's result and gained the two slots. */
  lemma SplitLevel(n1: seq<NodeV4>, r1: seq<nat>, n2: seq<NodeV4>, r2: seq<nat>, at: nat, o: u32, c: CidrV4,
                   newIdx: nat, splitIdx: nat)
    requires Arena(n1, r1) && Arena(n2, r2) && |n2| == |n1| && at < |n1|
    requires newIdx < |n1| && splitIdx < |n1| && newIdx != splitIdx
    requires IsTree(n1, r1, at) && newIdx !in Subtree(n1, r1, at) && splitIdx !in Subtree(n1, r1, at)
    requires SplitCase(n1[at], o, c)
    requires SplitWrites(n1[at], n2, at, o, c, newIdx, splitIdx)
    requires forall j :: 0 <= j < |n2| && j != at && j != newIdx && j != splitIdx ==> n2[j] == n1[j]
    ensures StepDone(n1, r1, n2, r2, at, o, c, {}, {newIdx, splitIdx})
  {
    SubtreeInRange(n1, r1, at);
    SplitLocal(n1, r1, n2, r2, at, o, c, newIdx, splitIdx);
    NoneGone(Subtree(n1, r1, at), {newIdx, splitIdx});
  }

  /** The subsume case at the node itself: the new arena is an arena, and
    * at `at` it stands for the function's result. */
  lemma SubsumeLevel(n1: seq<NodeV4>, rank: seq<nat>, n2: seq<NodeV4>, at: nat, o: u32, c: CidrV4, gone: set<nat>)
    requires Arena(n1, rank) && at < |n1|
    requires SubsumeCase(n1[at], o, c)
    requires gone == Subtree(n1, rank, at) - {at}
    requires |n2| == |n1|
    requires forall i :: 0 <= i < |n1| ==>
      n2[i] == if i in gone then ZERO else if i == at then n1[at].(prefix := Sub32(c.prefix, o), left := 0, right := 0) else n1[i]
    ensures Arena(n2, rank)
    ensures StepDone(n1, rank, n2, rank, at, o, c, gone, {})
    ensures forall j :: 0 <= j < |n1| && j !in Subtree(n1, rank, at) ==> n2[j] == n1[j]
    ensures forall j :: j in gone ==> j < |n2| && n2[j] == ZERO
  {
    assert at in Subtree(n1, rank, at);
    SubtreeInRange(n1, rank, at);
    assert Arena(n2, rank);
    SubsumeLocal(n1, rank, n2, rank, at, o, c);
  }

  /** A list that starts with another is that one and the rest. */
  lemma SliceAppend(s: seq<nat>, p: seq<nat>)
    requires |p| <= |s| && s[..|p|] == p
    ensures s == p + s[|p|..]
  {
    assert s == s[..|p|] + s[|p|..];
  }

  /** The three-way split of `treeV4.Add` at slot `at`, reached with offset
    * o, where the node and the new network agree on their first `matching`
    * bits: two slots come off the free list, one for the new network's leaf
    * and one for the node's remainder, which takes over its children. */
  method SplitAt(t: TreeV4, ghost rank: seq<nat>, at: nat, o: u32, c: CidrV4, matching: u32)
    returns (t': TreeV4, ghost rank': seq<nat>)
    requires Inv(t, rank) && |t.nodes| > 0 && at < |t.nodes| && |t.free| >= 2
    requires Walk(t.nodes, rank, 0, 0, c) == Splits(at, o, matching)
    requires matching == Matching32(t.nodes[at].addr, c.addr) && SplitCase(t.nodes[at], o, c)
    ensures Inv(t', rank')
    ensures Abs(t', rank') == InsertV4(ToNode(t.nodes, rank, 0), 0, NatToBits(c.addr, 32), c.prefix)
    ensures t'.free == t.free[2..] && |t'.nodes| == |t.nodes|
    ensures forall j :: 0 <= j < |t.nodes| && j != at && j != t.free[0] && j != t.free[1] ==> t'.nodes[j] == t.nodes[j]
  {
    var newIdx, t1 := GetFreeNode(t);
    var splitIdx, t2 := GetFreeNode(t1);
    assert newIdx == t.free[0] && splitIdx == t.free[1] && t2.free == t.free[2..];
    assert at in Subtree(t.nodes, rank, 0) by {
      WalkMatches(t.nodes, rank, 0, 0, c);
    }
    FreeHeads(t, rank);
    // the Go code writes through pointers to three distinct slots
    var curr, newNode, splitted := t2.nodes[at], t2.nodes[newIdx], t2.nodes[splitIdx];
    splitted := splitted.(left := curr.left, right := curr.right);
    if !LowBit32(curr.addr, Sub32(32, Add32(matching, 1))) {
      curr := curr.(left := splitIdx, right := newIdx);
    } else {
      curr := curr.(left := newIdx, right := splitIdx);
    }
    newNode := newNode.(addr := c.addr, prefix := Sub32(c.prefix, matching));
    splitted := splitted.(addr := curr.addr, prefix := Sub32(Add32(curr.prefix, o), matching));
    curr := curr.(prefix := Sub32(matching, o));
    var nodes := t2.nodes[newIdx := newNode][splitIdx := splitted][at := curr];
    t' := TreeV4(nodes, t2.free);
    rank' := SplitRank(rank, at, newIdx, splitIdx);
    SplitDone(t, rank, at, o, c, t'.nodes, rank');
  }

  /** The two head slots of the free list are distinct zero slots outside
    * the tree. */
  lemma FreeHeads(t: TreeV4, rank: seq<nat>)
    requires Inv(t, rank) && |t.nodes| > 0 && |t.free| >= 2
    ensures t.free[0] < |t.nodes| && t.nodes[t.free[0]] == ZERO && t.free[0] !in Subtree(t.nodes, rank, 0)
    ensures t.free[1] < |t.nodes| && t.nodes[t.free[1]] == ZERO && t.free[1] !in Subtree(t.nodes, rank, 0)
    ensures t.free[0] != t.free[1]
  {
  }

  /** After the three-way split: the arena is well-formed and stands for
    * the inserted trie. */
  lemma SplitDone(t: TreeV4, rank: seq<nat>, at: nat, o: u32, c: CidrV4, n2: seq<NodeV4>, r2: seq<nat>)
    requires Inv(t, rank) && |t.nodes| > 0 && at < |t.nodes| && |t.free| >= 2
    requires Walk(t.nodes, rank, 0, 0, c) == Splits(at, o, Matching32(t.nodes[at].addr, c.addr))
    requires SplitCase(t.nodes[at], o, c)
    requires |n2| == |t.nodes| && SplitWrites(t.nodes[at], n2, at, o, c, t.free[0], t.free[1])
    requires forall j :: 0 <= j < |n2| && j != at && j != t.free[0] && j != t.free[1] ==> n2[j] == t.nodes[j]
    requires r2 == SplitRank(rank, at, t.free[0], t.free[1])
    ensures Arena(n2, r2)
    ensures Inv(TreeV4(n2, t.free[2..]), r2)
    ensures Abs(TreeV4(n2, t.free[2..]), r2) == InsertV4(ToNode(t.nodes, rank, 0), 0, NatToBits(c.addr, 32), c.prefix)
  {
    var n1 := t.nodes;
    var newIdx, splitIdx := t.free[0], t.free[1];
    var cu := n1[at];
    var low := !LowBit32(cu.addr, Sub32(32, Add32(Matching32(cu.addr, c.addr), 1)));
    assert at in Subtree(n1, rank, 0) by {
      WalkMatches(n1, rank, 0, 0, c);
    }
    SplitArena(t, rank, n2, at, if low then splitIdx else newIdx, if low then newIdx else splitIdx);
    SplitShape(n1, rank, n2, r2, at, o, c, newIdx, splitIdx);
    TakeInv(n1, t.free, rank, n2, r2);
  }

  /** The arena after the three-way split stands for the inserted trie and
    * its tree gained exactly the two slots. */
  lemma SplitShape(n1: seq<NodeV4>, rank: seq<nat>, n2: seq<NodeV4>, r2: seq<nat>, at: nat, o: u32, c: CidrV4,
                   newIdx: nat, splitIdx: nat)
    requires Arena(n1, rank) && Arena(n2, r2) && |n2| == |n1| && at < |n1| && IsTree(n1, rank, 0)
    requires Walk(n1, rank, 0, 0, c) == Splits(at, o, Matching32(n1[at].addr, c.addr))
    requires newIdx < |n1| && splitIdx < |n1| && newIdx != splitIdx
    requires newIdx !in Subtree(n1, rank, 0) && splitIdx !in Subtree(n1, rank, 0)
    requires SplitCase(n1[at], o, c) && SplitWrites(n1[at], n2, at, o, c, newIdx, splitIdx)
    requires forall j :: 0 <= j < |n2| && j != at && j != newIdx && j != splitIdx ==> n2[j] == n1[j]
    ensures IsTree(n2, r2, 0) && Subtree(n2, r2, 0) == Subtree(n1, rank, 0) + {newIdx, splitIdx}
    ensures Some(ToNode(n2, r2, 0)) == InsertV4(ToNode(n1, rank, 0), 0, NatToBits(c.addr, 32), c.prefix)
  {
    assert at in Subtree(n1, rank, 0) && IsTree(n1, rank, at)
        && newIdx !in Subtree(n1, rank, at) && splitIdx !in Subtree(n1, rank, at) by {
      WalkMatches(n1, rank, 0, 0, c);
      SubtreeTransitive(n1, rank, 0, at);
      IsTreeBelow(n1, rank, 0, at);
    }
    SplitLevel(n1, rank, n2, r2, at, o, c, newIdx, splitIdx);
    PairApart(newIdx, splitIdx, Subtree(n1, rank, 0));
    PathReplace(n1, rank, n2, r2, 0, 0, c, {}, {newIdx, splitIdx});
    NoneGone(Subtree(n1, rank, 0), {newIdx, splitIdx});
  }

  /** Two slots outside a set form a pair disjoint from it. */
  lemma PairApart(a: nat, b: nat, s: set<nat>)
    requires a !in s && b !in s
    ensures {a, b} !! s
  {
  }

  /** `treeV4.Add`. An empty arena takes the network's leaf as its root;
    * otherwise the arena grows if the free list is short, and the loop
    * walks down from the root to the node where the network absorbs,
    * subsumes or splits. The two Go panics of the loop are the result
    * `panicked`, with the arena as the loop found it. */
  method Add(t: TreeV4, cidr: IPNet, ghost rank: seq<nat>) returns (t': TreeV4, ghost rank': seq<nat>, panicked: bool)
    requires To4(cidr.ip).Some?
    requires Inv(t, rank)
    ensures Inv(t', rank')
    ensures |t.nodes| == 0 ==> !panicked
    ensures var c := CidrV4FromNet(cidr);
            |t.nodes| == 0 ==> Abs(t', rank') == Some(Leaf(NatToBits(c.addr, 32), c.prefix))
    ensures var c := CidrV4FromNet(cidr);
            |t.nodes| > 0 ==>
              (panicked <==> InsertV4(ToNode(t.nodes, rank, 0), 0, NatToBits(c.addr, 32), c.prefix).None?)
    ensures var c := CidrV4FromNet(cidr);
            |t.nodes| > 0 && !panicked ==>
              Abs(t', rank') == InsertV4(ToNode(t.nodes, rank, 0), 0, NatToBits(c.addr, 32), c.prefix)
    ensures panicked ==> Abs(t', rank') == Abs(t, rank)
  {
    var c := CidrV4FromNet(cidr);
    if |t.nodes| == 0 {
      t' := TreeV4([NodeV4(c.addr, c.prefix, 0, 0)], t.free);
      rank' := [0];
      assert Subtree(t'.nodes, rank', 0) == {0};
      return t', rank', false;
    }
    var t1 := EnsureCapacity(t);
    ghost var rank1 := rank + seq(|t1.nodes| - |t.nodes|, _ => 0);
    if |t.free| > 10 {
      rank1 := rank;
    } else {
      GrowInv(t, rank, t1, rank1);
    }
    t', rank', panicked := Descend(t1, rank1, c);
  }

  /** The loop of `treeV4.Add` on a non-empty arena with at least two free
    * slots: it panics exactly where `InsertV4` has no result, leaves the
    * arena alone when it panics or absorbs, and otherwise leaves an arena
    * that stands for the inserted trie. */
  method Descend(t: TreeV4, ghost rank: seq<nat>, c: CidrV4) returns (t': TreeV4, ghost rank': seq<nat>, panicked: bool)
    requires Inv(t, rank) && |t.nodes| > 0 && |t.free| >= 2
    ensures Inv(t', rank')
    ensures panicked <==> InsertV4(ToNode(t.nodes, rank, 0), 0, NatToBits(c.addr, 32), c.prefix).None?
    ensures panicked ==> t' == t
    ensures !panicked ==> Abs(t', rank') == InsertV4(ToNode(t.nodes, rank, 0), 0, NatToBits(c.addr, 32), c.prefix)
    ensures panicked ==> rank' == rank
  {
    WalkMatches(t.nodes, rank, 0, 0, c);
    var curr: nat := 0;
    var offset: u32 := 0;
    while true
      invariant curr < |t.nodes|
      invariant Walk(t.nodes, rank, curr, offset, c) == Walk(t.nodes, rank, 0, 0, c)
      decreases rank[curr]
    {
      var node := t.nodes[curr];
      var matching := Matching32(node.addr, c.addr);
      if offset > c.prefix {
        return t, rank, true;
      }
      if matching >= Add32(offset, node.prefix) && matching < c.prefix {
        if node.left == 0 {
          return t, rank, false;
        }
        offset := Add32(offset, node.prefix);
        if !LowBit32(c.addr, Sub32(32, Add32(matching, 1))) {
          curr := node.left;
        } else {
          curr := node.right;
        }
        continue;
      }
      if matching >= node.prefix && c.prefix < Add32(offset, node.prefix) {
        t' := SubsumeAt(t, rank, curr, offset, c);
        return t', rank, false;
      }
      if matching < Add32(offset, node.prefix) && matching < c.prefix {
        t', rank' := SplitAt(t, rank, curr, offset, c, matching);
        return t', rank', false;
      }
      return t, rank, true;
    }
  }

}
