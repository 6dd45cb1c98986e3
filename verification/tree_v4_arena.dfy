/**
 * The arena of treeV4.go: nodes in one array linked by index, index 0 being
 * both the root and the "no child" marker, and a free list of reusable
 * indices. This module gives the arena's shape: which indices hang below
 * which, when the links form a tree, and the trie of module IPSet that an
 * arena stands for.
 */
module ArenaV4 {
  import opened Results
  import opened Machine
  import opened Bits
  import opened IPSet

  /** `treeNodeV4`: a 32-bit address, the segment length, and the arena
    * indices of the two children (0 for none). */
  datatype NodeV4 = NodeV4(addr: u32, prefix: u32, left: nat, right: nat)

  /** The zero value of `treeNodeV4`, which fresh and freed slots hold. */
  const ZERO: NodeV4 := NodeV4(0, 0, 0, 0)

  /** `cidrV4`: the address and the mask length. */
  datatype CidrV4 = CidrV4(addr: u32, prefix: u32)

  /** `treeV4`: the arena and the free list. */
  datatype TreeV4 = TreeV4(nodes: seq<NodeV4>, free: seq<nat>)

  /** The 32-bit common prefix: `matchingPrefix` on two `uint32`s. */
  function Matching32(a: u32, b: u32): (r: u32)
    ensures r <= 32
    ensures Agree(NatToBits(a, 32), NatToBits(b, 32), r)
    ensures r < 32 ==> NatToBits(a, 32)[r] != NatToBits(b, 32)[r]
  {
    MatchingAgree(NatToBits(a, 32), NatToBits(b, 32), MatchingPrefix(NatToBits(a, 32), NatToBits(b, 32)));
    MatchingPrefix(NatToBits(a, 32), NatToBits(b, 32))
  }

  /** `x >> s & 1` on a `uint32`: bit s counted from the least significant
    * end, and 0 once s reaches the width, as a Go shift does. */
  function LowBit32(x: u32, s: u32): bool
  {
    s < 32 && NatToBits(x, 32)[31 - s]
  }

  /** `(x >> (32 - (i + 1))) & 1` with the subtraction wrapping in 32 bits
    * is bit i counted from the most significant end, and 0 past bit 31. */
  lemma ShiftedBit(x: u32, i: u32)
    ensures LowBit32(x, Sub32(32, Add32(i, 1))) == Bit(NatToBits(x, 32), i)
  {
  }

  /** Every child index is inside the arena, a node has both children or
    * neither, and child links go down a rank, so they form no cycle. */
  ghost predicate Arena(nodes: seq<NodeV4>, rank: seq<nat>)
  {
    && |rank| == |nodes|
    && forall i :: 0 <= i < |nodes| ==>
         && nodes[i].left < |nodes| && nodes[i].right < |nodes|
         && (nodes[i].left == 0 <==> nodes[i].right == 0)
         && (nodes[i].left != 0 ==> rank[nodes[i].left] < rank[i] && rank[nodes[i].right] < rank[i])
  }

  /** The subtree at index i as a trie of module IPSet over 32-bit keys. */
  ghost function ToNode(nodes: seq<NodeV4>, rank: seq<nat>, i: nat): (r: Node)
    requires Arena(nodes, rank) && i < |nodes|
    ensures r.addr == NatToBits(nodes[i].addr, 32) && r.prefix == nodes[i].prefix
    ensures r.Leaf? <==> nodes[i].left == 0
    decreases rank[i]
  {
    var n := nodes[i];
    if n.left == 0 then Leaf(NatToBits(n.addr, 32), n.prefix)
    else Fork(NatToBits(n.addr, 32), n.prefix, ToNode(nodes, rank, n.left), ToNode(nodes, rank, n.right))
  }

  /** The indices of the subtree at i: i and everything below it. */
  ghost function Subtree(nodes: seq<NodeV4>, rank: seq<nat>, i: nat): set<nat>
    requires Arena(nodes, rank) && i < |nodes|
    decreases rank[i]
  {
    var n := nodes[i];
    if n.left == 0 then {i}
    else {i} + Subtree(nodes, rank, n.left) + Subtree(nodes, rank, n.right)
  }

  /** The indices of the subtrees at the non-zero entries of roots. */
  ghost function Subtrees(nodes: seq<NodeV4>, rank: seq<nat>, roots: seq<nat>): set<nat>
    requires Arena(nodes, rank) && forall k :: 0 <= k < |roots| ==> roots[k] < |nodes|
  {
    if |roots| == 0 then {}
    else (if roots[0] == 0 then {} else Subtree(nodes, rank, roots[0])) + Subtrees(nodes, rank, roots[1..])
  }

  /** Everything below i is in the arena, is not 0, and sits lower in rank,
    * and its own subtree is part of i's. */
  lemma {:induction false} SubtreeTransitive(nodes: seq<NodeV4>, rank: seq<nat>, i: nat, x: nat)
    requires Arena(nodes, rank) && i < |nodes|
    requires x in Subtree(nodes, rank, i)
    ensures x < |nodes| && Subtree(nodes, rank, x) <= Subtree(nodes, rank, i)
    ensures x != i ==> x != 0 && rank[x] < rank[i]
    decreases rank[i]
  {
    var n := nodes[i];
    if x != i {
      if x in Subtree(nodes, rank, n.left) {
        SubtreeTransitive(nodes, rank, n.left, x);
      } else {
        SubtreeTransitive(nodes, rank, n.right, x);
      }
    }
  }

  /** Every index below i is inside the arena. */
  lemma {:induction false} SubtreeInRange(nodes: seq<NodeV4>, rank: seq<nat>, i: nat)
    requires Arena(nodes, rank) && i < |nodes|
    ensures forall j :: j in Subtree(nodes, rank, i) ==> j < |nodes|
    decreases rank[i]
  {
    var n := nodes[i];
    if n.left != 0 {
      SubtreeInRange(nodes, rank, n.left);
      SubtreeInRange(nodes, rank, n.right);
    }
  }

  /** The links below i form a tree: the two subtrees of every node in it
    * share no index. */
  ghost predicate IsTree(nodes: seq<NodeV4>, rank: seq<nat>, i: nat)
    requires Arena(nodes, rank) && i < |nodes|
    decreases rank[i]
  {
    var n := nodes[i];
    n.left == 0
    || (&& Subtree(nodes, rank, n.left) !! Subtree(nodes, rank, n.right)
        && IsTree(nodes, rank, n.left) && IsTree(nodes, rank, n.right))
  }

  /** An arena that agrees with another on the subtree at i has the same
    * subtree there, whatever the ranks. */
  lemma {:induction false} Frame(n1: seq<NodeV4>, r1: seq<nat>, n2: seq<NodeV4>, r2: seq<nat>, i: nat)
    requires Arena(n1, r1) && Arena(n2, r2) && |n2| == |n1| && i < |n1|
    requires forall j :: j in Subtree(n1, r1, i) ==> j < |n1| && n2[j] == n1[j]
    ensures Subtree(n2, r2, i) == Subtree(n1, r1, i)
    ensures ToNode(n2, r2, i) == ToNode(n1, r1, i)
    ensures IsTree(n2, r2, i) == IsTree(n1, r1, i)
    decreases r1[i]
  {
    var n := n1[i];
    assert i in Subtree(n1, r1, i);
    if n.left != 0 {
      Frame(n1, r1, n2, r2, n.left);
      Frame(n1, r1, n2, r2, n.right);
    }
  }

  /** Two arenas with the same links have the same ranks. */
  lemma SameLinksArena(n1: seq<NodeV4>, r1: seq<nat>, n2: seq<NodeV4>)
    requires Arena(n1, r1) && |n2| == |n1|
    requires forall j :: 0 <= j < |n1| ==> n2[j].left == n1[j].left && n2[j].right == n1[j].right
    ensures Arena(n2, r1)
  {
  }

  /** Subtrees and tree shape depend on the links alone. */
  lemma {:induction false} SameLinks(n1: seq<NodeV4>, r1: seq<nat>, n2: seq<NodeV4>, i: nat)
    requires Arena(n1, r1) && Arena(n2, r1) && |n2| == |n1| && i < |n1|
    requires forall j :: 0 <= j < |n1| ==> n2[j].left == n1[j].left && n2[j].right == n1[j].right
    ensures Subtree(n2, r1, i) == Subtree(n1, r1, i)
    ensures IsTree(n2, r1, i) == IsTree(n1, r1, i)
    decreases r1[i]
  {
    var n := n1[i];
    if n.left != 0 {
      SameLinks(n1, r1, n2, n.left);
      SameLinks(n1, r1, n2, n.right);
    }
  }

  /** Appending slots to an arena leaves the subtree at an old index as it
    * was. */
  lemma {:induction false} Grow(n1: seq<NodeV4>, r1: seq<nat>, n2: seq<NodeV4>, r2: seq<nat>, i: nat)
    requires Arena(n1, r1) && Arena(n2, r2) && |n1| <= |n2| && i < |n1|
    requires n2[..|n1|] == n1
    ensures Subtree(n2, r2, i) == Subtree(n1, r1, i)
    ensures ToNode(n2, r2, i) == ToNode(n1, r1, i)
    ensures IsTree(n2, r2, i) == IsTree(n1, r1, i)
    decreases r1[i]
  {
    assert n2[i] == n2[..|n1|][i];
    var n := n1[i];
    if n.left != 0 {
      Grow(n1, r1, n2, r2, n.left);
      Grow(n1, r1, n2, r2, n.right);
    }
  }

  /** Below the root of a tree every node heads a tree. */
  lemma {:induction false} IsTreeBelow(nodes: seq<NodeV4>, rank: seq<nat>, i: nat, x: nat)
    requires Arena(nodes, rank) && i < |nodes|
    requires IsTree(nodes, rank, i) && x in Subtree(nodes, rank, i)
    ensures x < |nodes| && IsTree(nodes, rank, x)
    decreases rank[i]
  {
    var n := nodes[i];
    if x != i {
      if x in Subtree(nodes, rank, n.left) {
        IsTreeBelow(nodes, rank, n.left, x);
      } else {
        IsTreeBelow(nodes, rank, n.right, x);
      }
    }
  }

  /** No index occurs twice. */
  ghost predicate NoDup(s: seq<nat>)
  {
    forall j, k :: 0 <= j < k < |s| ==> s[j] != s[k]
  }

  /** A well-formed `treeV4`: either empty with an empty free list, or an
    * arena whose links from index 0 form a tree and whose free list holds
    * distinct zeroed slots outside that tree, every slot being in the tree
    * or on the free list. */
  ghost predicate Inv(t: TreeV4, rank: seq<nat>)
  {
    && Arena(t.nodes, rank)
    && (|t.nodes| == 0 ==> |t.free| == 0)
    && (|t.nodes| > 0 ==>
         && IsTree(t.nodes, rank, 0)
         && (forall j :: 0 <= j < |t.free| ==>
               t.free[j] < |t.nodes| && t.nodes[t.free[j]] == ZERO && t.free[j] !in Subtree(t.nodes, rank, 0))
         && NoDup(t.free)
         && (forall i :: 0 <= i < |t.nodes| ==> i in Subtree(t.nodes, rank, 0) || i in t.free))
  }

  /** The trie an arena stands for: none when it is empty, else the one at 0. */
  ghost function Abs(t: TreeV4, rank: seq<nat>): Option<Node>
    requires Arena(t.nodes, rank)
  {
    if |t.nodes| == 0 then None else Some(ToNode(t.nodes, rank, 0))
  }
}
