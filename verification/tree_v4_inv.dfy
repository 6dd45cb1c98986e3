/**
 * How the three ways `treeV4.Add` changes an arena keep the arena
 * well-formed (predicate `Inv` of module ArenaV4): growing it, cutting a
 * subtree off and handing its slots to the free list, and taking the two
 * head slots of the free list into the tree.
 */
module InvV4 {
  import opened Results
  import opened ArenaV4

  /** Two duplicate-free lists with no common entry append to one. */
  lemma NoDupAppend(a: seq<nat>, b: seq<nat>)
    requires NoDup(a) && NoDup(b)
    requires forall j, k :: 0 <= j < |a| && 0 <= k < |b| ==> a[j] != b[k]
    ensures NoDup(a + b)
  {
  }

  /** t' is t with extra zero slots, all appended to the free list after
    * the old entries, and ranked 0. */
  ghost predicate Grown(t: TreeV4, rank: seq<nat>, t': TreeV4, rank': seq<nat>)
  {
    && |t'.nodes| >= |t.nodes| && t'.nodes[..|t.nodes|] == t.nodes
    && (forall i :: |t.nodes| <= i < |t'.nodes| ==> t'.nodes[i] == ZERO)
    && |t'.free| == |t.free| + (|t'.nodes| - |t.nodes|) && t'.free[..|t.free|] == t.free
    && (forall j :: |t.free| <= j < |t'.free| ==> t'.free[j] == |t.nodes| + (j - |t.free|))
    && rank' == rank + seq(|t'.nodes| - |t.nodes|, _ => 0)
  }

  /** Growing keeps the old slots, free entries and ranks, and the links
    * stay inside the arena and go down in rank. */
  lemma GrowArena(t: TreeV4, rank: seq<nat>, t': TreeV4, rank': seq<nat>)
    requires Inv(t, rank) && Grown(t, rank, t', rank')
    ensures forall i :: 0 <= i < |t.nodes| ==> t'.nodes[i] == t.nodes[i] && rank'[i] == rank[i]
    ensures forall j :: 0 <= j < |t.free| ==> t'.free[j] == t.free[j]
    ensures Arena(t'.nodes, rank')
  {
    var n := |t.nodes|;
    forall i | 0 <= i < n
      ensures t'.nodes[i] == t.nodes[i]
    {
      assert t'.nodes[i] == t'.nodes[..n][i];
    }
    forall j | 0 <= j < |t.free|
      ensures t'.free[j] == t.free[j]
    {
      assert t'.free[j] == t'.free[..|t.free|][j];
    }
  }

  /** Extra zero slots, all on the free list after the old entries, keep
    * the arena well-formed and leave its trie alone. */
  lemma GrowInv(t: TreeV4, rank: seq<nat>, t': TreeV4, rank': seq<nat>)
    requires Inv(t, rank) && |t.nodes| > 0 && Grown(t, rank, t', rank')
    ensures Inv(t', rank')
    ensures Abs(t', rank') == Abs(t, rank)
  {
    var n := |t.nodes|;
    GrowArena(t, rank, t', rank');
    Grow(t.nodes, rank, t'.nodes, rank', 0);
    SubtreeInRange(t.nodes, rank, 0);
    forall i | 0 <= i < |t'.nodes|
      ensures i in Subtree(t'.nodes, rank', 0) || i in t'.free
    {
      if n <= i {
        assert t'.free[|t.free| + (i - n)] == i;
      } else if i !in Subtree(t.nodes, rank, 0) {
        var j :| 0 <= j < |t.free| && t.free[j] == i;
        assert t'.free[j] == i;
      }
    }
  }

  /** Cutting the slots `gone` out of the tree, zeroing them and appending
    * them to the free list once each keeps the arena well-formed. */
  lemma RemoveInv(n1: seq<NodeV4>, free1: seq<nat>, n2: seq<NodeV4>, rank: seq<nat>,
                  gone: set<nat>, added: seq<nat>)
    requires Inv(TreeV4(n1, free1), rank) && |n1| > 0
    requires Arena(n2, rank) && |n2| == |n1| && IsTree(n2, rank, 0)
    requires gone <= Subtree(n1, rank, 0)
    requires Subtree(n2, rank, 0) == Subtree(n1, rank, 0) - gone
    requires forall j :: j in gone ==> j < |n2| && n2[j] == ZERO
    requires forall j :: 0 <= j < |n1| && j !in Subtree(n1, rank, 0) ==> n2[j] == n1[j]
    requires NoDup(added)
    requires forall k :: 0 <= k < |added| ==> added[k] in gone
    requires forall j :: j in gone ==> j in added
    ensures Inv(TreeV4(n2, free1 + added), rank)
  {
    SubtreeInRange(n1, rank, 0);
    NoDupAppend(free1, added);
    var free2 := free1 + added;
    forall j | 0 <= j < |free2|
      ensures free2[j] < |n2| && n2[free2[j]] == ZERO && free2[j] !in Subtree(n2, rank, 0)
    {
      if j >= |free1| {
        assert free2[j] == added[j - |free1|];
      }
    }
    forall i | 0 <= i < |n2|
      ensures i in Subtree(n2, rank, 0) || i in free2
    {
      if i in gone {
        var k :| 0 <= k < |added| && added[k] == i;
        assert free2[|free1| + k] == i;
      } else if i !in Subtree(n1, rank, 0) {
        var k :| 0 <= k < |free1| && free1[k] == i;
        assert free2[k] == i;
      }
    }
  }

  /** An entry of a list other than its first two is in the list's tail. */
  lemma InTail(free: seq<nat>, i: nat)
    requires |free| >= 2 && i in free && i != free[0] && i != free[1]
    ensures i in free[2..]
  {
    var k :| 0 <= k < |free| && free[k] == i;
    assert free[2..][k - 2] == i;
  }

  /** Taking the two head slots of the free list into the tree keeps the
    * arena well-formed. */
  lemma TakeInv(n1: seq<NodeV4>, free1: seq<nat>, r1: seq<nat>, n2: seq<NodeV4>, r2: seq<nat>)
    requires Inv(TreeV4(n1, free1), r1) && |n1| > 0 && |free1| >= 2
    requires Arena(n2, r2) && |n2| == |n1| && IsTree(n2, r2, 0)
    requires Subtree(n2, r2, 0) == Subtree(n1, r1, 0) + {free1[0], free1[1]}
    requires forall j :: 0 <= j < |n1| && j !in Subtree(n1, r1, 0) && j != free1[0] && j != free1[1] ==> n2[j] == n1[j]
    ensures Inv(TreeV4(n2, free1[2..]), r2)
  {
    var free2 := free1[2..];
    forall j | 0 <= j < |free2|
      ensures free2[j] < |n2| && n2[free2[j]] == ZERO && free2[j] !in Subtree(n2, r2, 0)
    {
      assert free2[j] == free1[j + 2];
    }
    forall i | 0 <= i < |n2|
      ensures i in Subtree(n2, r2, 0) || i in free2
    {
      if i !in Subtree(n1, r1, 0) && i != free1[0] && i != free1[1] {
        InTail(free1, i);
      }
    }
  }

  /** The children of a node in the tree or on the free list are never on
    * the free list: tree nodes link into the tree and free slots are
    * zero. */
  lemma LinksAvoidFree(t: TreeV4, rank: seq<nat>, j: nat, k: nat)
    requires Inv(t, rank) && |t.nodes| > 0 && j < |t.nodes| && k < |t.free|
    ensures t.nodes[j].left != t.free[k] && t.nodes[j].right != t.free[k]
  {
    assert 0 in Subtree(t.nodes, rank, 0);
    var n := t.nodes[j];
    if j in Subtree(t.nodes, rank, 0) && n.left != 0 {
      SubtreeTransitive(t.nodes, rank, 0, j);
      assert n.left in Subtree(t.nodes, rank, j) && n.right in Subtree(t.nodes, rank, j);
    } else if j !in Subtree(t.nodes, rank, 0) {
      var m :| 0 <= m < |t.free| && t.free[m] == j;
    }
  }

  /** The ranks after a three-way split at `at` that takes slot a for the
    * new leaf and slot b for the remainder: old slots move to odd ranks,
    * b sits just below `at`, and the leaf a at 0. */
  ghost function SplitRank(rank: seq<nat>, at: nat, a: nat, b: nat): (r: seq<nat>)
    requires at < |rank|
    ensures |r| == |rank|
  {
    seq(|rank|, j requires 0 <= j < |rank| => if j == a then 0 else if j == b then 2 * rank[at] else 2 * rank[j] + 1)
  }

  /** The arena after a three-way split at `at` is an arena under
    * `SplitRank`. */
  lemma SplitArena(t: TreeV4, rank: seq<nat>, n2: seq<NodeV4>, at: nat, x: nat, y: nat)
    requires Inv(t, rank) && |t.nodes| > 0 && |t.free| >= 2 && at in Subtree(t.nodes, rank, 0)
    requires (x == t.free[0] && y == t.free[1]) || (x == t.free[1] && y == t.free[0])
    requires |n2| == |t.nodes| && at < |n2|
    requires n2[at].left == x && n2[at].right == y
    requires n2[t.free[1]].left == t.nodes[at].left && n2[t.free[1]].right == t.nodes[at].right
    requires n2[t.free[0]].left == 0 && n2[t.free[0]].right == 0
    requires forall j :: 0 <= j < |n2| && j != at && j != t.free[0] && j != t.free[1] ==>
               n2[j].left == t.nodes[j].left && n2[j].right == t.nodes[j].right
    ensures Arena(n2, SplitRank(rank, at, t.free[0], t.free[1]))
  {
    var a, b := t.free[0], t.free[1];
    var r2 := SplitRank(rank, at, a, b);
    assert a != b;
    SubtreeTransitive(t.nodes, rank, 0, at);
    forall j | 0 <= j < |n2|
      ensures && n2[j].left < |n2| && n2[j].right < |n2|
              && (n2[j].left == 0 <==> n2[j].right == 0)
              && (n2[j].left != 0 ==> r2[n2[j].left] < r2[j] && r2[n2[j].right] < r2[j])
    {
      if j == at {
      } else if j == a {
      } else if j == b {
        LinksAvoidFree(t, rank, at, 0);
        LinksAvoidFree(t, rank, at, 1);
      } else {
        LinksAvoidFree(t, rank, j, 0);
        LinksAvoidFree(t, rank, j, 1);
      }
    }
  }
}
