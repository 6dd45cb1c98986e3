/**
 * The insertion loop of `treeV4.Add`, twice: once as a function on the
 * tries of module IPSet over 32-bit keys, which is what the arena stands
 * for, and once as the walk over the arena that finds where the loop stops.
 * The lemmas show that carrying out the loop's last step in the arena
 * leaves an arena that stands for the function's result.
 */
module WalkV4 {
  import opened Results
  import opened Machine
  import opened Bits
  import opened IPSet
  import opened ArenaV4

  /** The loop of `treeV4.Add` from node n (ancestors' segments add up to
    * off) for the network `key/plen`. The cases are tested in the Go
    * order: descend (or absorb at a leaf), subsume, three-way split. None
    * is a panic: an offset past the new prefix length, or no case applying.
    * The branch taken on descending is the new key's bit at `matching`. */
  function InsertV4(n: Node, off: u32, key: seq<bool>, plen: u32): (r: Option<Node>)
    ensures r.Some? ==> r.value.addr == n.addr
  {
    var matching := MatchingPrefix(n.addr, key);
    var offset := Add32(off, n.prefix);
    if off > plen then None
    else if matching >= offset && matching < plen then
      if n.Leaf? then Some(n)
      else if !Bit(key, matching) then
        match InsertV4(n.left, offset, key, plen)
        case None => None
        case Some(l) => Some(n.(left := l))
      else
        match InsertV4(n.right, offset, key, plen)
        case None => None
        case Some(r) => Some(n.(right := r))
    else if matching >= n.prefix && plen < offset then Some(Leaf(n.addr, Sub32(plen, off)))
    else if matching < offset && matching < plen then Some(Split(n, offset, matching, key, plen))
    else None
  }

  /** A network whose first plen bits agree with the node's address and
    * which ends at or after the node's extent fits none of the loop's
    * cases, so the loop panics. Were the node a leaf, it would already
    * enclose the network; a fork would have to be descended instead. */
  lemma EnclosedPanics(n: Node, off: u32, key: seq<bool>, plen: u32)
    requires off <= plen && Add32(off, n.prefix) <= plen && MatchingPrefix(n.addr, key) >= plen
    ensures InsertV4(n, off, key, plen) == None
  {
  }

  /** Adding a leaf's own network again at the root panics. */
  lemma AddAgainPanics(key: seq<bool>, plen: u32)
    requires |key| == 32 && plen <= 32
    ensures InsertV4(Leaf(key, plen), 0, key, plen) == None
  {
    MatchingFull(key, key);
    EnclosedPanics(Leaf(key, plen), 0, key, plen);
  }

  /** Where the loop of `treeV4.Add` stops. */
  datatype Step =
    | Panics
    | Absorbs
    | Subsumes(at: nat, off: u32)
    | Splits(at: nat, off: u32, matching: u32)

  /** The loop of `treeV4.Add` over the arena from index i with offset off. */
  ghost function Walk(nodes: seq<NodeV4>, rank: seq<nat>, i: nat, off: u32, c: CidrV4): Step
    requires Arena(nodes, rank) && i < |nodes|
    decreases rank[i]
  {
    var n := nodes[i];
    var matching := Matching32(n.addr, c.addr);
    var offset := Add32(off, n.prefix);
    if off > c.prefix then Panics
    else if matching >= offset && matching < c.prefix then
      if n.left == 0 then Absorbs
      else if !LowBit32(c.addr, Sub32(32, Add32(matching, 1))) then Walk(nodes, rank, n.left, offset, c)
      else Walk(nodes, rank, n.right, offset, c)
    else if matching >= n.prefix && c.prefix < offset then Subsumes(i, off)
    else if matching < offset && matching < c.prefix then Splits(i, off, matching)
    else Panics
  }

  /** The subsume case of the loop at node cu, reached with offset o: no
    * panic, no descent, and the new network ends inside cu's segment. */
  predicate SubsumeCase(cu: NodeV4, o: u32, c: CidrV4)
  {
    var m := Matching32(cu.addr, c.addr);
    && !(o > c.prefix)
    && !(m >= Add32(o, cu.prefix) && m < c.prefix)
    && m >= cu.prefix && c.prefix < Add32(o, cu.prefix)
  }

  /** The three-way split case of the loop at node cu, reached with offset
    * o: none of the earlier cases, and the new network leaves cu's
    * segment part-way. */
  predicate SplitCase(cu: NodeV4, o: u32, c: CidrV4)
  {
    var m := Matching32(cu.addr, c.addr);
    && !(o > c.prefix)
    && !(m >= Add32(o, cu.prefix) && m < c.prefix)
    && !(m >= cu.prefix && c.prefix < Add32(o, cu.prefix))
    && m < Add32(o, cu.prefix) && m < c.prefix
  }

  /** The three slots as the three-way split at `at` (old node cu) leaves
    * them: `at` cut back to bit m with the two new slots as children in
    * the order of cu's bit at m, splitIdx holding the remainder of cu's
    * segment and its children, newIdx the new network's leaf. */
  predicate SplitWrites(cu: NodeV4, n2: seq<NodeV4>, at: nat, o: u32, c: CidrV4, newIdx: nat, splitIdx: nat)
  {
    var m := Matching32(cu.addr, c.addr);
    var low := !LowBit32(cu.addr, Sub32(32, Add32(m, 1)));
    && at < |n2| && newIdx < |n2| && splitIdx < |n2|
    && n2[at] == NodeV4(cu.addr, Sub32(m, o), if low then splitIdx else newIdx, if low then newIdx else splitIdx)
    && n2[splitIdx] == NodeV4(cu.addr, Sub32(Add32(cu.prefix, o), m), cu.left, cu.right)
    && n2[newIdx] == NodeV4(c.addr, Sub32(c.prefix, m), 0, 0)
  }

  /** The walk panics exactly where the function does, absorbs where it
    * leaves the trie alone, and otherwise stops inside the subtree. */
  lemma {:induction false} WalkMatches(nodes: seq<NodeV4>, rank: seq<nat>, i: nat, off: u32, c: CidrV4)
    requires Arena(nodes, rank) && i < |nodes|
    ensures var w := Walk(nodes, rank, i, off, c);
            var r := InsertV4(ToNode(nodes, rank, i), off, NatToBits(c.addr, 32), c.prefix);
            && (w.Panics? <==> r.None?)
            && (w.Absorbs? ==> r == Some(ToNode(nodes, rank, i)))
            && (w.Subsumes? || w.Splits? ==> w.at in Subtree(nodes, rank, i))
    decreases rank[i]
  {
    var n := nodes[i];
    var matching := Matching32(n.addr, c.addr);
    var offset := Add32(off, n.prefix);
    ShiftedBit(c.addr, matching);
    if !(off > c.prefix) && matching >= offset && matching < c.prefix && n.left != 0 {
      if !LowBit32(c.addr, Sub32(32, Add32(matching, 1))) {
        WalkMatches(nodes, rank, n.left, offset, c);
      } else {
        WalkMatches(nodes, rank, n.right, offset, c);
      }
    }
  }

  /** `x + (m - (o + x))` is `m - o` in 32-bit arithmetic. */
  lemma WrapCancel(x: u32, m: u32, o: u32)
    ensures Add32(x, Sub32(m, Add32(o, x))) == Sub32(m, o)
  {
  }

  /** Subsume at index `at`: the node keeps its address, its segment ends
    * at the new prefix length, and it loses both children. */
  lemma SubsumeLocal(n1: seq<NodeV4>, r1: seq<nat>, n2: seq<NodeV4>, r2: seq<nat>, at: nat, o: u32, c: CidrV4)
    requires Arena(n1, r1) && Arena(n2, r2) && |n2| == |n1| && at < |n1|
    requires SubsumeCase(n1[at], o, c)
    requires n2[at] == n1[at].(prefix := Sub32(c.prefix, o), left := 0, right := 0)
    ensures InsertV4(ToNode(n1, r1, at), o, NatToBits(c.addr, 32), c.prefix) == Some(ToNode(n2, r2, at))
    ensures IsTree(n2, r2, at) && Subtree(n2, r2, at) == {at}
  {
  }

  /** The split-off remainder: slot s takes over the children of `at`, so
    * it stands for the old subtree at `at` with another segment length. */
  lemma SplitRemainder(n1: seq<NodeV4>, r1: seq<nat>, n2: seq<NodeV4>, r2: seq<nat>, at: nat, s: nat, p: u32)
    requires Arena(n1, r1) && Arena(n2, r2) && |n2| == |n1| && at < |n1| && s < |n1|
    requires IsTree(n1, r1, at) && s !in Subtree(n1, r1, at)
    requires n2[s] == n1[at].(prefix := p)
    requires forall j :: j in Subtree(n1, r1, at) ==> j < |n1| && (j != at ==> n2[j] == n1[j])
    ensures ToNode(n2, r2, s) == ToNode(n1, r1, at).(prefix := p)
    ensures IsTree(n2, r2, s)
    ensures Subtree(n2, r2, s) == Subtree(n1, r1, at) - {at} + {s}
  {
    var cu := n1[at];
    if cu.left != 0 {
      if at in Subtree(n1, r1, cu.left) {
        SubtreeTransitive(n1, r1, cu.left, at);
      }
      if at in Subtree(n1, r1, cu.right) {
        SubtreeTransitive(n1, r1, cu.right, at);
      }
      Frame(n1, r1, n2, r2, cu.left);
      Frame(n1, r1, n2, r2, cu.right);
    }
  }

  /** Three-way split at index `at`: the node is cut back to bit `matching`
    * and gets two children, the fresh slot splitIdx holding its remainder
    * and old children and the fresh slot newIdx holding the new network,
    * ordered by the node's own bit at `matching`. */
  lemma SplitLocal(n1: seq<NodeV4>, r1: seq<nat>, n2: seq<NodeV4>, r2: seq<nat>, at: nat, o: u32, c: CidrV4,
                   newIdx: nat, splitIdx: nat)
    requires Arena(n1, r1) && Arena(n2, r2) && |n2| == |n1| && at < |n1|
    requires newIdx < |n1| && splitIdx < |n1| && newIdx != splitIdx
    requires IsTree(n1, r1, at) && newIdx !in Subtree(n1, r1, at) && splitIdx !in Subtree(n1, r1, at)
    requires SplitCase(n1[at], o, c)
    requires SplitWrites(n1[at], n2, at, o, c, newIdx, splitIdx)
    requires forall j :: j in Subtree(n1, r1, at) ==> j < |n1| && (j != at ==> n2[j] == n1[j])
    ensures InsertV4(ToNode(n1, r1, at), o, NatToBits(c.addr, 32), c.prefix) == Some(ToNode(n2, r2, at))
    ensures IsTree(n2, r2, at)
    ensures Subtree(n2, r2, at) == Subtree(n1, r1, at) + {newIdx, splitIdx}
  {
    var cu := n1[at];
    var m := Matching32(cu.addr, c.addr);
    ShiftedBit(cu.addr, m);
    WrapCancel(cu.prefix, m, o);
    assert Add32(o, cu.prefix) == Add32(cu.prefix, o);
    SplitRemainder(n1, r1, n2, r2, at, splitIdx, Sub32(Add32(cu.prefix, o), m));
    assert ToNode(n2, r2, newIdx) == Leaf(NatToBits(c.addr, 32), Sub32(c.prefix, m));
    SplitLocalTree(n1, r1, n2, r2, at, o, c, newIdx, splitIdx);
  }

  /** The slots of the subtree at `at` after a three-way split: the old ones
    * and the two fresh slots. */
  lemma SplitLocalTree(n1: seq<NodeV4>, r1: seq<nat>, n2: seq<NodeV4>, r2: seq<nat>, at: nat, o: u32, c: CidrV4,
                       newIdx: nat, splitIdx: nat)
    requires Arena(n1, r1) && Arena(n2, r2) && |n2| == |n1| && at < |n1|
    requires newIdx < |n1| && splitIdx < |n1| && newIdx != splitIdx
    requires IsTree(n1, r1, at) && newIdx !in Subtree(n1, r1, at) && splitIdx !in Subtree(n1, r1, at)
    requires SplitWrites(n1[at], n2, at, o, c, newIdx, splitIdx)
    requires forall j :: j in Subtree(n1, r1, at) ==> j < |n1| && (j != at ==> n2[j] == n1[j])
    ensures IsTree(n2, r2, at)
    ensures Subtree(n2, r2, at) == Subtree(n1, r1, at) + {newIdx, splitIdx}
  {
    var cu := n1[at];
    SplitRemainder(n1, r1, n2, r2, at, splitIdx, n2[splitIdx].prefix);
    var rest := Subtree(n1, r1, at) - {at} + {splitIdx};
    assert Subtree(n2, r2, newIdx) == {newIdx};
    assert newIdx !in rest;
    assert at in Subtree(n1, r1, at);
    SplitSets(at, Subtree(n1, r1, at), splitIdx, newIdx);
    if n2[at].left == splitIdx {
      assert Subtree(n2, r2, at) == {at} + rest + {newIdx};
    } else {
      assert Subtree(n2, r2, at) == {at} + {newIdx} + rest;
    }
  }

  /** The index set after a split: the node, its remainder and the new leaf. */
  lemma SplitSets(at: nat, s: set<nat>, sp: nat, nw: nat)
    requires at in s
    ensures {at} + (s - {at} + {sp}) + {nw} == s + {nw, sp}
    ensures {at} + {nw} + (s - {at} + {sp}) == s + {nw, sp}
  {
  }

  /** The last step of the loop, carried out at `at` (reached with offset
    * off), turned the arena n1 into n2: at `at` the new arena stands for
    * the function's result, the slots `gone` left the subtree and the
    * slots `taken` joined it, and no slot outside the subtree or `taken`
    * changed. */
  ghost predicate StepDone(n1: seq<NodeV4>, r1: seq<nat>, n2: seq<NodeV4>, r2: seq<nat>,
                           at: nat, off: u32, c: CidrV4, gone: set<nat>, taken: set<nat>)
    requires Arena(n1, r1) && Arena(n2, r2) && |n2| == |n1|
  {
    && at < |n1|
    && InsertV4(ToNode(n1, r1, at), off, NatToBits(c.addr, 32), c.prefix) == Some(ToNode(n2, r2, at))
    && IsTree(n2, r2, at)
    && Subtree(n2, r2, at) == Subtree(n1, r1, at) - gone + taken
    && gone <= Subtree(n1, r1, at) - {at}
    && forall j :: 0 <= j < |n1| && j !in Subtree(n1, r1, at) && j !in taken ==> n2[j] == n1[j]
  }

  /** Lifting the last step to the root: if the arena n2 differs from n1
    * only inside the subtree at the node where the walk from i stops and
    * in taken slots outside the tree, and at that node it already stands
    * for the function's result, then it does so at i as well; the tree
    * shape is kept and the indices of the subtree change by the same
    * amount. */
  lemma {:induction false} PathReplace(n1: seq<NodeV4>, r1: seq<nat>, n2: seq<NodeV4>, r2: seq<nat>,
                                       i: nat, off: u32, c: CidrV4, gone: set<nat>, taken: set<nat>)
    requires Arena(n1, r1) && Arena(n2, r2) && |n2| == |n1| && i < |n1|
    requires IsTree(n1, r1, i)
    requires Walk(n1, r1, i, off, c).Subsumes? || Walk(n1, r1, i, off, c).Splits?
    requires var w := Walk(n1, r1, i, off, c);
             StepDone(n1, r1, n2, r2, w.at, w.off, c, gone, taken)
    requires taken !! Subtree(n1, r1, i)
    ensures InsertV4(ToNode(n1, r1, i), off, NatToBits(c.addr, 32), c.prefix) == Some(ToNode(n2, r2, i))
    ensures IsTree(n2, r2, i)
    ensures Subtree(n2, r2, i) == Subtree(n1, r1, i) - gone + taken
    decreases r1[i]
  {
    var n := n1[i];
    var matching := Matching32(n.addr, c.addr);
    var offset := Add32(off, n.prefix);
    if !(off > c.prefix) && matching >= offset && matching < c.prefix && n.left != 0 {
      var w := Walk(n1, r1, i, off, c);
      var goLeft := !LowBit32(c.addr, Sub32(32, Add32(matching, 1)));
      var ch := if goLeft then n.left else n.right;
      assert Walk(n1, r1, ch, offset, c) == w;
      PathReplace(n1, r1, n2, r2, ch, offset, c, gone, taken);
      WalkMatches(n1, r1, ch, offset, c);
      SubtreeTransitive(n1, r1, ch, w.at);
      PathStep(n1, r1, n2, r2, i, off, c, gone, taken, goLeft);
    }
  }

  /** One level of `PathReplace`: the walk descends from i into child ch,
    * where the arenas already agree as required. */
  lemma PathStep(n1: seq<NodeV4>, r1: seq<nat>, n2: seq<NodeV4>, r2: seq<nat>,
                 i: nat, off: u32, c: CidrV4, gone: set<nat>, taken: set<nat>, goLeft: bool)
    requires Arena(n1, r1) && Arena(n2, r2) && |n2| == |n1| && i < |n1|
    requires IsTree(n1, r1, i) && n1[i].left != 0
    requires var n := n1[i];
             var matching := Matching32(n.addr, c.addr);
             && !(off > c.prefix) && matching >= Add32(off, n.prefix) && matching < c.prefix
             && goLeft == !LowBit32(c.addr, Sub32(32, Add32(matching, 1)))
    requires var n := n1[i];
             var ch := if goLeft then n.left else n.right;
             var offset := Add32(off, n.prefix);
             && InsertV4(ToNode(n1, r1, ch), offset, NatToBits(c.addr, 32), c.prefix) == Some(ToNode(n2, r2, ch))
             && IsTree(n2, r2, ch)
             && Subtree(n2, r2, ch) == Subtree(n1, r1, ch) - gone + taken
             && gone <= Subtree(n1, r1, ch)
             && forall j :: 0 <= j < |n1| && j !in Subtree(n1, r1, ch) && j !in taken ==> n2[j] == n1[j]
    requires taken !! Subtree(n1, r1, i)
    ensures InsertV4(ToNode(n1, r1, i), off, NatToBits(c.addr, 32), c.prefix) == Some(ToNode(n2, r2, i))
    ensures IsTree(n2, r2, i)
    ensures Subtree(n2, r2, i) == Subtree(n1, r1, i) - gone + taken
  {
    var n := n1[i];
    var ch, sb := n.left, n.right;
    if !goLeft {
      ch, sb := n.right, n.left;
    }
    PathSets(n1, r1, n2, r2, i, ch, sb, gone, taken);
    ShiftedBit(c.addr, Matching32(n.addr, c.addr));
  }

  /** The sets half of `PathStep`: the child ch was rewritten, its sibling
    * sb was not. */
  lemma PathSets(n1: seq<NodeV4>, r1: seq<nat>, n2: seq<NodeV4>, r2: seq<nat>,
                 i: nat, ch: nat, sb: nat, gone: set<nat>, taken: set<nat>)
    requires Arena(n1, r1) && Arena(n2, r2) && |n2| == |n1| && i < |n1|
    requires IsTree(n1, r1, i) && n1[i].left != 0
    requires (ch == n1[i].left && sb == n1[i].right) || (ch == n1[i].right && sb == n1[i].left)
    requires IsTree(n2, r2, ch)
    requires Subtree(n2, r2, ch) == Subtree(n1, r1, ch) - gone + taken
    requires gone <= Subtree(n1, r1, ch)
    requires forall j :: 0 <= j < |n1| && j !in Subtree(n1, r1, ch) && j !in taken ==> n2[j] == n1[j]
    requires taken !! Subtree(n1, r1, i)
    ensures n2[i] == n1[i]
    ensures IsTree(n2, r2, i)
    ensures Subtree(n2, r2, i) == Subtree(n1, r1, i) - gone + taken
    ensures ToNode(n2, r2, sb) == ToNode(n1, r1, sb)
  {
    if i in Subtree(n1, r1, ch) {
      SubtreeTransitive(n1, r1, ch, i);
    }
    assert i in Subtree(n1, r1, i);
    SubtreeInRange(n1, r1, sb);
    Frame(n1, r1, n2, r2, sb);
    ReplaceInUnion(i, Subtree(n1, r1, ch), Subtree(n1, r1, sb), gone, taken);
    var n := n1[i];
    assert Subtree(n1, r1, i) == {i} + Subtree(n1, r1, n.left) + Subtree(n1, r1, n.right);
    assert Subtree(n2, r2, i) == {i} + Subtree(n2, r2, n.left) + Subtree(n2, r2, n.right);
  }

  /** Replacing inside one part of a disjoint union. */
  lemma ReplaceInUnion(i: nat, a: set<nat>, b: set<nat>, gone: set<nat>, taken: set<nat>)
    requires gone <= a && a !! b && i !in a && i !in taken && taken !! b
    ensures {i} + (a - gone + taken) + b == {i} + a + b - gone + taken
    ensures {i} + b + (a - gone + taken) == {i} + b + a - gone + taken
  {
  }
}
