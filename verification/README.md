# kentik/ipset in Dafny

A model of the IP prefix set of kentik/ipset and proofs about it. The set
is a path-compressed binary (Patricia) trie over one 128-bit keyspace: an
IPv6 address is its own key, and an IPv4 address lives at its IPv4-mapped
position `::ffff:a.b.c.d` (section 2.5.5.2 of RFC 4291) with 96 added to
its mask length. `Add` inserts a network by one of four cases (subsume,
three-way split, absorb, descend) and `Contains` walks the trie to answer
whether an address lies in an inserted network.

Three Go files are modelled, each as its own module:

- **ipset.go** (modules `Bits`, `Machine`, `IPSet`, `Encoding`,
  `IPSetShape`, `IPSetSoundness`, `Counterexample`, `Corrected`). The trie is
  the immutable datatype `IPSet.Node`: `Leaf` or `Fork`. A Go node has both
  children or neither, and the two constructors say so. `prefix` is a node's
  own segment length, as in Go. The cumulative extent adds the ancestors'
  segments, with uint32 wrap-around written out (`Add32`, `Sub32`). Keys are
  bit strings, most significant bit first. `matchingPrefix` is the number of
  leading zeros of the XOR. `Add` is a function returning a `Result`, and its
  error path is the `nodeFromNet` error that Go raises as a panic. The set a
  trie stands for is `IPSetShape.InSomeLeaf`: the keys that agree with some
  leaf's address over that leaf's cumulative extent.
- **tree.go** (module `Tree`). It is the same algorithm with the split guard
  tested before the subsume guard. It is proved to build the same trie as
  ipset.go. Its `Contains` is ipset.go's line for line, and the model
  defines it as that query.
- **treeV4.go** (modules `ArenaV4`, `WalkV4`, `InvV4`, `TreeV4`). This is an
  IPv4-only variant that keeps its nodes in an array and has a free list.
  Index 0 is both the root and the "no child" value. It is modelled with
  methods, as the Go code is written. `ArenaV4.Inv` is the arena invariant.
  `ArenaV4.Abs` reads the arena back as a trie of `IPSet.Node` over 32-bit
  keys. A ghost `rank` per slot shows the child links are acyclic. The
  insertion loop is the function `WalkV4.InsertV4`, with its cases tested in
  the Go order. `TreeV4.Add` is proved to keep `Inv` and to leave an arena
  whose `Abs` is the `InsertV4` result.

Three ways treeV4.go differs from ipset.go are kept in `WalkV4.InsertV4`
as written:

- its descend test also asks `matching < cdr.prefix`;
- on descending it branches on the new address's bit at `matching`;
- its subsume guard compares `matching` with the node's own segment
  instead of the new mask length.

Its two panics (an offset past the new prefix length, and no case applying)
are a `panicked` result. `panicked` holds exactly when `InsertV4` gives
`None`, and the arena is then left as the loop found it. Each difference
is a finding, listed under "## Findings":

- Adding a network equal to a leaf's own network reaches the final panic
  (treeV4.go:170), although the comment at treeV4.go:115-117 says an
  enclosed network needs nothing done (`WalkV4.AddAgainPanics`).
- The branch bit at `matching` is not the bit after the fork's extent that
  `Contains` reads (treeV4.go:195), so an added address can be lost
  (`CounterexampleV4.BranchBitLosesAddress`).
- Below the root, the subsume guard cuts back a node whose address leaves
  the new network before its mask length. An added address is lost, and an
  address in no added network is then contained
  (`CounterexampleV4.SubsumeGuardLosesAddress`).

`CorrectedV4.InsertV4Fixed` is the loop with all three corrected: the
descend test and the branch bit follow the comments, and the subsume guard
is ipset.go's inclusive one. It panics only on an offset past the mask
length. Adding again the network of any leaf that the walk of `Contains`
reaches leaves its trie unchanged (`CorrectedV4.ReAddUnchanged`).

The insertion of ipset.go as written always keeps `IPSetShape.Shaped`. This
is the well-formedness of a trie without the clause that segments below the
root are positive (`IPSetSoundness.AddAllShaped`). Zero-length leaves do
arise (`Counterexample.StrictGuardZeroLeaf`). The insertion adds exactly a
network's addresses whenever the network does not end where a fork ends.
`IPSetOrder.OffEnds` states this condition statically for a whole list of
networks. It covers lists in order of mask length, and it also covers the
unordered "all previous mixed" group of ipset_test.go:51-55
(`IPSetFixtures.MixedGroupSound`).

## Model

| member | source | states |
|---|---|---|
| Bits.MatchingPrefix | ipset.go:194-196 | the result is the length of the common leading-bit prefix: the first m bits agree and bit m differs when both strings have it |
| Bits.MatchingAgree | ipset.go:194-196 | the common prefix is at least n exactly when the first n bits agree |
| Bits.MatchingSymmetric | ipset.go:194-196 | `matchingPrefix(l, r) == matchingPrefix(r, l)` for all keys |
| Bits.MatchingFull | ipset.go:194-196 | two keys of one width have a full-width common prefix if and only if they are equal |
| Bits.MatchingConcat | ipset.go:194-196 | the common prefix of two strings split at the same width: the first parts' if they differ, else their width plus the second parts' |
| Bits.BitsRoundTrip | ipset.go:44-51 | reading the w-bit expansion of x back as a number gives x |
| Bits.NatToBitsConcat | ipset.go:50 | the bits of `x * 2^v + y` (y below 2^v) are the bits of x followed by the bits of y |
| Bits.BigEndianBits | ipset.go:50 | the bit expansion of a byte string's big-endian value is the bytes expanded one by one |
| Bits.FromHiLoValue | ipset.go:50 | a key built as `uint128.New(lo, hi)` reads back as `hi * 2^64 + lo` |
| Machine.Add32 | ipset.go:74 | uint32 `+` wraps modulo 2^32 |
| Machine.Sub32 | ipset.go:110 | uint32 `-` wraps a negative difference up by 2^32 |
| Machine.ReadAfterWrite | ipset.go:53-58 | reading `PutUint32(x)` back big-endian gives x |
| Machine.WriteAfterRead | ipset.go:53-58 | writing a byte string's big-endian value back at its width gives the bytes |
| IPSet.To16 | ipset.go:45-48 | a 4-byte address has the 16-byte mapped form, a 16-byte address is kept, any other length has none |
| IPSet.Uint128FromIP | ipset.go:44-51 | succeeds exactly for 4- and 16-byte addresses, and otherwise fails with the invalid-address error for that address |
| IPSet.Uint128FromIPBits | ipset.go:44-51 | the key of a 16-byte address is its bits; the key of a 4-byte address is the bits of `::ffff:` followed by its bits |
| IPSet.MaskLength | ipset.go:171-179 | an IPv4 mask length (mask narrower than 128) is moved up by 96; an IPv6 one is kept |
| IPSet.NodeFromNet | ipset.go:161-180 | a nil network is the nil error; the result is a leaf exactly when the address encodes; its key is the encoding and its length the translated mask length |
| IPSet.ContainsAt | ipset.go:70-88 | a true answer implies the query agrees with the node's address over its cumulative extent |
| IPSet.Split | ipset.go:115-137 | the three-way split makes a fork that keeps the node's address |
| IPSet.InsertAt | ipset.go:102-151 | every case of the loop keeps the node's address |
| IPSet.Contains | ipset.go:60-89 | false for an empty set and for an address that does not encode; true implies the walk from the root accepts the key |
| IPSet.Add | ipset.go:91-100 | succeeds exactly for a network `nodeFromNet` accepts, and otherwise fails with that error before the trie is looked at; an empty set takes the new leaf as root; the root keeps its address |
| IPSet.AddAll | ipset.go:27-29 | succeeds exactly when every network can be added; the result has a root exactly when the start set had one or a network was added |
| IPSet.NewSet | ipset.go:24-32 | succeeds exactly when every network can be added, and the result is non-empty exactly when the list is |
| IPSetShape.ContainsMeaning | ipset.go:70-88 | on a well-formed trie the walk accepts a key if and only if the key lies in some leaf's network |
| IPSetShape.ContainsSet | ipset.go:60-89 | on a well-formed set, `Contains` holds exactly for addresses that encode to a key in the set the trie stands for |
| IPSetShape.LeafAgreesWithRoot | ipset.go:79-87 | a key in some leaf agrees with the subtree's own address over the subtree's extent |
| IPSetShape.SelfCovered | ipset.go:79-80 | every well-formed subtree holds its own address |
| IPSetShape.OtherSideEmpty | ipset.go:83-87 | a key that agrees with a fork is in no leaf on the side opposite its next bit, so descending one way loses nothing |
| IPSetShape.WfShaped | ipset.go:102-151 | a well-formed trie also has the weaker shape that insertion as written keeps: addresses of 128 bits, children agreeing with their parent and on their side, forks ending before bit 128 |
| Encoding.EncodeV4Value | ipset.go:44-51 | an IPv4 address becomes the key with high half 0 and low half `0xffff` followed by the address |
| Encoding.NodeFromNetV4 | ipset.go:161-180 | an IPv4 network becomes the mapped key with mask length 96 + ones |
| Encoding.NodeFromNetV6 | ipset.go:161-180 | an IPv6 network keeps its big-endian halves and its mask length |
| Encoding.ContainsRawIPv4Key | ipset.go:53-58 | `ContainsRawIPv4(x)` asks whether the walk accepts the IPv4-mapped key of x |
| Encoding.ContainsRawIPv4Bytes | ipset.go:53-58 | `ContainsRawIPv4` of four bytes' big-endian value is `Contains` of those bytes |
| Encoding.NodeFromNetV4Slash24 | ipset_test.go:193-198 | 127.0.0.0/24 becomes `uint128.New(0xffff7f000000, 0)` with length 120 |
| Encoding.NodeFromNetV4Slash16 | ipset_test.go:200-206 | 255.255.0.0/16 becomes `uint128.New(0xffffffff0000, 0)` with length 112 |
| Encoding.NodeFromNetV6Slash120 | ipset_test.go:208-214 | ffff::ffff:ffff/120, whose parsed address is ffff::ffff:ff00, becomes `uint128.New(0xffffff00, 0xffff000000000000)` with length 120 |
| Encoding.NodeFromNetV6Slash32 | ipset_test.go:216-222 | ffff:ffff:ffff::ffff:ffff/32, whose parsed address is ffff:ffff::, becomes `uint128.New(0, 0xffffffff00000000)` with length 32 |
| Encoding.MatchingVector1 | ipset_test.go:245-249 | `0xf0…` against `0x80…` in the high half gives 1 |
| Encoding.MatchingVector2 | ipset_test.go:250-254 | `0xf0…` against `0xc0…` gives 2 |
| Encoding.MatchingVector3 | ipset_test.go:255-259 | `0xf0…` against `0xe0…` gives 3 |
| Encoding.MatchingVector8 | ipset_test.go:260-264 | `0xffff…` against `0xff00…` gives 8 |
| Encoding.MatchingVector56 | ipset_test.go:265-269 | `0xffff` against `0xff00` at the bottom of the high half gives 56 |
| Encoding.MatchingVector63 | ipset_test.go:270-274 | high halves 1 and 0 give 63 for every pair of low halves, among them the test's `0xf0…` and `0x40…` |
| Encoding.MatchingVector64 | ipset_test.go:275-279 | equal high halves, low halves `0xf0…` and `0x40…`, give 64 |
| Encoding.MatchingVector65 | ipset_test.go:280-284 | equal high halves, low halves `0xf0…` and `0x80…`, give 65 |
| Encoding.MatchingVector128 | ipset_test.go:285-289 | two zero keys give 128 |
| Encoding.MatchingVector127 | ipset_test.go:290-294 | keys that differ only in the lowest bit give 127 |
| Corrected.SubsumeSet | ipset.go:108-113 | cutting a node back to end at the new mask length adds exactly the network's addresses, when the network agrees with the node and ends within its extent |
| Corrected.SplitValue | ipset.go:115-137 | the split fork ends at `matching`, the remainder ends at the old extent, the new leaf at the mask length, and the side is chosen by the node's bit at `matching`, which differs from the network's |
| Corrected.SplitShape | ipset.go:115-137 | both halves of a split are well formed and the fork's segment is positive when it starts after its parent |
| Corrected.SplitSet | ipset.go:115-137 | a three-way split adds exactly the network's addresses |
| Corrected.AbsorbSet | ipset.go:139-143 | a leaf that the network does not leave already holds every address of the network |
| Corrected.DescendShape | ipset.go:145-150 | replacing the child on the network's side by a well-formed node with the same address keeps the fork well formed |
| Corrected.DescendSet | ipset.go:145-150 | after the child on the network's side takes the network, the fork gains exactly the network |
| Corrected.InsertFixedShape | ipset.go:102-151 | insertion with the inclusive subsume guard keeps a trie well formed: children agree with their parents, both or neither is present, and forks end before bit 128 |
| Corrected.InsertFixedSet | ipset.go:102-151 | insertion with the inclusive guard adds exactly the network's addresses |
| Corrected.InsertFixedSound | ipset.go:102-151 | insertion with the inclusive guard keeps the trie well formed and adds exactly the network |
| Corrected.AddFixedSound | ipset.go:91-152 | with the inclusive guard, adding a network to a well-formed set adds exactly its addresses |
| Corrected.AddAllFixedSound | ipset.go:24-32 | with the inclusive guard, a set built from networks in any order holds exactly their addresses |
| Corrected.NewSetFixedSound | ipset.go:24-32 | with the inclusive guard, `NewSet` holds exactly the addresses of its networks |
| IPSetSoundness.InsertAgreesWithFixed | ipset.go:109 | when the mask length is not the cumulative end of any fork, the strict guard builds the same trie as the inclusive one |
| IPSetSoundness.SubsumeCuts | ipset.go:108-113 | a network agreeing with the node on all its bits and ending inside the node's extent turns the node into a leaf whose extent ends exactly at the mask length; the wrapping `+=` gives the segment `plen - off` |
| IPSetSoundness.AtDescends | ipset.go:145-150 | past the other three cases, insertion rebuilds the fork with the child on the network's side replaced |
| IPSetSoundness.FixedForkEnds | ipset.go:115-137 | insertion creates forks only at extents below the new mask length |
| IPSetSoundness.AddSound | ipset.go:91-152 | `ipset.Add` as written, when the mask length is not a fork end of the set, keeps it well formed and adds exactly the network's addresses |
| IPSetSoundness.AddAllSound | ipset.go:24-32 | networks added in order of non-decreasing mask length, to a well-formed set whose fork ends all lie below the first mask length, add exactly their addresses |
| IPSetSoundness.NewSetSound | ipset.go:24-32 | `NewSet` over networks in order of non-decreasing mask length holds exactly their addresses |
| IPSetSoundness.NewSetUniformSound | ipset_test.go:61-76 | `NewSet` over networks of one mask length holds exactly their addresses, in any order |
| IPSetSoundness.PairSound | ipset_test.go:31-40 | a set of any two networks, IPv4 or IPv6 and nested, overlapping or disjoint, holds exactly their addresses, so listed negatives outside both are not contained, and the two orders answer the same |
| IPSetSoundness.InsertAtShape | ipset.go:102-151 | the loop as written, for any network agreeing with the node up to its start, keeps the shape of the trie, with no condition on the mask length |
| IPSetSoundness.SplitShaped | ipset.go:115-137 | a three-way split of a node of that shape keeps the shape |
| IPSetSoundness.AddShaped | ipset.go:91-152 | `ipset.Add` of any network that fits the keyspace succeeds and keeps the set's shape |
| IPSetSoundness.AddAllShaped | ipset.go:24-32 | adding networks in any order keeps the set's shape |
| IPSetSoundness.NewSetShaped | ipset.go:24-32 | `NewSet` over networks in any order builds a trie of that shape |
| IPSetOrder.SplitGrowth | ipset.go:115-137 | a split adds only the new key to the addresses of the subtree, and only the fork end where the network leaves the node's address |
| IPSetOrder.FixedGrowth | ipset.go:102-151 | insertion adds only the network's key to the addresses of a trie, and only fork ends where the key departs from one of its addresses before the mask length |
| IPSetOrder.AddGrowth | ipset.go:91-152 | `ipset.Add` of a network that ends at no fork end adds only its key to the set's addresses and only its departures from them to the fork ends |
| IPSetOrder.AddAllOffEnds | ipset.go:24-32 | adding a list in which no network ends where a fork of the set so far ends (checked against addresses and fork ends tracked statically) keeps the set well formed and adds exactly the networks' addresses |
| IPSetOrder.NewSetOffEnds | ipset.go:24-32 | `NewSet` over such a list holds exactly the addresses of its networks |
| IPSetOrder.AscendingOffEnds | ipset.go:24-32 | a list in order of non-decreasing mask length is such a list |
| IPSetOrder.ApartOffEnds | ipset.go:24-32 | so is a list whose keys, apart from equal ones and the last, part before bit b while every mask length is at least b |
| IPSetFixtures.FirstByteApart | ipset_test.go:51-55 | IPv4 networks whose first address bytes differ have keys that part before bit 104 |
| IPSetFixtures.MixedFit | ipset_test.go:51-55 | the seven networks of the group fit the keyspace with mask lengths of at least 116 |
| IPSetFixtures.MixedApart | ipset_test.go:51-55 | among the group's first six networks, keys are equal or part within the first byte |
| IPSetFixtures.MixedGroupSound | ipset_test.go:51-55 | the group, added in the test's unsorted order, makes a well-formed set holding exactly the addresses of its seven networks, so the listed negatives outside them are not contained |
| Counterexample.StrictGuardLosesAddress | ipset.go:109 | 10.200.0.1 lies in 10.0.0.0/8, yet the set built from 10.0.0.0/24, 10.128.0.0/24 and 10.0.0.0/8 in that order does not contain it |
| Counterexample.OtherOrdersKeepAddress | ipset.go:109 | the same networks with the /8 first, or with the inclusive guard, give a set that contains 10.200.0.1 |
| Counterexample.ListedAddressFound | ipset_test.go:108-124 | an address of a listed network is contained, for ascending mask lengths or with the inclusive guard |
| Counterexample.StrictGuardZeroLeaf | ipset.go:108-113 | 10.0.0.0/24, 10.128.0.0/24, then 10.0.0.0/8 leave a leaf with a zero-length segment, so the set keeps the weaker shape but is not well formed |
| Tree.InsertSame | tree.go:98-140 | testing the split before the subsume gives the same trie as ipset.go's order, for every node and network |
| Tree.AbsorbUnchanged | tree.go:129-133 | at a leaf that neither splits nor subsumes, the trie is returned unchanged, and the network's common prefix reaches the leaf's extent |
| Tree.Add | tree.go:81-91 | succeeds exactly for networks `nodeFromNet` accepts, with its error otherwise; an empty set takes the new leaf |
| Tree.AddSame | tree.go:81-142 | `uint128set.Add` and `ipset.Add` give the same result on every set and network |
| Tree.AddAllSame | tree.go:44-46 | adding a list one by one gives the same result in both files |
| Tree.NewSetSame | tree.go:41-49 | `NewSet2` and `NewSet` build the same set |
| Tree.Contains | tree.go:148-177 | the same query as ipset.go's: false for an empty set and for an address that does not encode, and true only when the walk from the root accepts the key |
| Tree.ContainsMeaning2 | tree.go:148-177 | on a well-formed set the query answers membership in a leaf's network |
| Tree.ContainsRawIPv4Same | tree.go:34-39 | `ContainsRawIPv4` of four bytes' big-endian value is `Contains` of the bytes, and agrees with ipset.go |
| ArenaV4.Matching32 | treeV4.go:105 | the 32-bit common prefix: the first r bits agree, and bit r differs if r < 32 |
| ArenaV4.ShiftedBit | treeV4.go:123 | `(x >> (32 - (m + 1))) & 1`, with the subtraction wrapping, is bit m from the top, and 0 past bit 31 |
| ArenaV4.Frame | treeV4.go:41-44 | an arena that agrees with another on a subtree has the same subtree, trie and shape there |
| ArenaV4.Grow | treeV4.go:51-58 | appending slots leaves the subtree, trie and shape at an old index as they were |
| ArenaV4.SubtreeTransitive | treeV4.go:9-13 | everything below a slot is in range, non-zero and of lower rank, and its subtree is part of the slot's |
| TreeV4.To4 | treeV4.go:28 | four bytes, or sixteen bytes with the mapped prefix, have an IPv4 form, and it has the same 16-byte form |
| TreeV4.CidrV4FromNet | treeV4.go:27-39 | the address is the big-endian value of the IPv4 bytes and the prefix the mask length |
| TreeV4.CidrV4MatchesNodeFromNet | treeV4.go:27-39 | the network as the arena reads it is the network as `nodeFromNet` reads it: its 128-bit key is the IPv4-mapped form of the 32-bit address |
| TreeV4.EnsureCapacity | treeV4.go:46-59 | with more than ten free slots nothing changes; otherwise the array grows to `2 * (len + 1)` zero-filled, old slots are kept, and exactly the new indices join the free list in order |
| TreeV4.GetFreeNode | treeV4.go:61-65 | returns the head of a non-empty free list and removes it |
| TreeV4.FreeUpNodes | treeV4.go:67-91 | zeroes exactly the nodes reachable from the given indices, skipping 0; appends each of them to the free list once when they form a forest; leaves every other slot alone |
| TreeV4.Contains | treeV4.go:174-200 | a nil address is not contained; otherwise the answer is the ipset.go walk over the trie the arena stands for, with 32-bit keys |
| TreeV4.SubsumeAt | treeV4.go:134-140 | cutting the node back to end at the new prefix length, freeing both subtrees and nulling its links keeps the arena well formed, and the arena then stands for the inserted trie |
| TreeV4.SubsumeFrees | treeV4.go:137 | the slots `freeUpNodes` frees are the node's subtree without the node, and the two children head disjoint trees |
| TreeV4.SplitAt | treeV4.go:142-167 | taking two free slots for the new leaf and the remainder, and ordering them by the node's bit at `matching`, keeps the arena well formed, and the arena then stands for the inserted trie; the free list loses its two heads and every other slot is left alone |
| TreeV4.FreeHeads | treeV4.go:144-146 | the two head slots of the free list are distinct zero slots outside the tree |
| TreeV4.Add | treeV4.go:93-172 | keeps the arena well formed; an empty arena takes the network's leaf as root; otherwise it panics exactly when `InsertV4` does, leaving the trie unchanged, and else the arena stands for the inserted trie |
| TreeV4.Descend | treeV4.go:100-171 | the loop from the root panics exactly when `InsertV4` gives none, leaving the arena untouched; else the arena stands for its result |
| WalkV4.InsertV4 | treeV4.go:104-171 | every non-panicking case keeps the node's address |
| WalkV4.WalkMatches | treeV4.go:104-171 | the loop over the arena panics exactly where `InsertV4` does, absorbs where it leaves the trie alone, and otherwise stops inside the subtree |
| WalkV4.SubsumeLocal | treeV4.go:134-140 | the subsumed node stands for the `InsertV4` result and is a one-slot tree |
| WalkV4.SplitRemainder | treeV4.go:149-163 | the split-off slot stands for the old subtree with its new segment length |
| WalkV4.SplitLocal | treeV4.go:142-167 | the split node stands for the `InsertV4` result and its subtree gains exactly the two fresh slots |
| WalkV4.PathReplace | treeV4.go:111-131 | a change at the node where the loop stops lifts through every level it descended: the root stands for the `InsertV4` result and its subtree changes by the same slots |
| WalkV4.EnclosedPanics | treeV4.go:111-170 | a network whose first bits match the node's address and which ends at or after the node's extent fits no case, so the loop panics |
| WalkV4.AddAgainPanics | treeV4.go:111-170 | adding a leaf's own network again at the root panics |
| CorrectedV4.InsertV4Fixed | treeV4.go:104-171 | every non-panicking case of the corrected loop keeps the node's address, and the loop panics exactly when an offset passes the mask length: no network reaches the final panic |
| CorrectedV4.ReAddUnchanged | treeV4.go:111-131 | with the corrected loop, re-adding the network of the leaf that the walk of `Contains` reaches for a key (treeV4.go:186-199) returns the trie unchanged |
| CorrectedV4.ReAddLeafUnchanged | treeV4.go:115-117 | with the corrected loop, adding a lone leaf's own network again changes nothing |
| CounterexampleV4.KeyV4OfAddr | treeV4.go:27-39 | the arena's 32-bit value of a.b.c.d expands to the address's 32 bits |
| CounterexampleV4.WrittenBranches | treeV4.go:120-127 | with keys related as in the example, the loop as written files the third network under the fork's right child, and the query walk then misses it |
| CounterexampleV4.FixedBranches | treeV4.go:120-127 | with the branch on the bit after the fork's extent, the third network splits the left leaf and the query walk finds it |
| CounterexampleV4.BranchBitLosesAddress | treeV4.go:122 | after 10.0.0.0/24, 10.128.0.0/24 and 10.0.1.0/24, the loop as written gives a trie that does not contain 10.0.1.5, which lies in 10.0.1.0/24; the corrected loop's trie contains it |
| CounterexampleV4.WrittenSubsumes | treeV4.go:134-140 | with keys related as in the example, the /20 descends to the right leaf, whose own segment its common prefix reaches, and the loop as written cuts that leaf back to end at bit 20; the walk then misses an address of the /20 and accepts one that agrees with the leaf over 20 bits |
| CounterexampleV4.FixedSubsumes | treeV4.go:134-167 | with the inclusive guard on the mask length, the /20 splits the right leaf at bit 16; the walk finds the /20's address and rejects the stray one |
| CounterexampleV4.SubsumeGuardLosesAddress | treeV4.go:135 | after 10.0.0.0/24, 10.128.0.0/24 and 10.128.128.0/20, the loop as written gives a trie that does not contain 10.128.128.1, which lies in the /20, and does contain 10.128.8.1, which lies in none of the three; the corrected loop's trie contains the first and not the second |
| CounterexampleV4.AddTwicePanics | ipset_test.go:77-83 | 172.17.0.0/24 added to an arena whose root leaf is that network panics as written, and is left unchanged by the corrected loop |
| InvV4.GrowInv | treeV4.go:46-59 | growing the arena keeps it well formed and leaves the trie it stands for unchanged |
| InvV4.RemoveInv | treeV4.go:67-91 | cutting slots out of the tree, zeroing them and appending them to the free list once each keeps the arena well formed |
| InvV4.TakeInv | treeV4.go:61-65 | taking the two head slots of the free list into the tree keeps the arena well formed |
| InvV4.SplitArena | treeV4.go:142-167 | after a split the links stay in range, both-or-neither, and acyclic under the new ranks |

## Left out

- treeV6.go: a linear scan that calls the Go library's `net.IPNet.Contains`. The set semantics `IPSetShape.InSomeNet` plays its part.
- Text parsing (`NewSetFromCSV`, `iPCidrListFromRaw`, `netFromIPCidr2`) is `strings` and `net.ParseCIDR` plumbing. Networks arrive already parsed as `IPNet(ip, ones, bits)`, where `(ones, bits)` is what `Mask.Size()` reports.
- `String`, `Equals`, error-message text and the test helpers `getHostsRange` and `inetAtoN` have no logic of their own to prove.
- The Go `net` helpers `To16` and `To4` are modelled on byte strings only.
- The two uint128 libraries (ipset.go's and tree.go's) are replaced by bit strings of length 128. `matchingPrefix` is defined once, in `Bits`, and serves both ipset.go and tree.go.
- treeV4.go calls `matchingPrefix` on two uint32 values, but no such function is in the source. `ArenaV4.Matching32` is the 32-bit common prefix it evidently means.
- Concurrency: the source has no synchronisation code, and the model is sequential.
- The Go code mutates sets in place. The ipset.go and tree.go models return new values, so "the set is unchanged on error" holds by construction.
- TreeV4.CidrV4FromNet: the panic on an address with no IPv4 form is a precondition, not a modelled path.
- TreeV4.Add: its two panics are the result `panicked` instead of a Go panic.
- TreeV4.Contains: requires a non-empty arena, because the Go code reads slot 0 unchecked. It requires an IPv4 address, because the Go code reads `To4()` without checking for nil.
- IPSetSoundness.AddSound: states soundness of the code as written only when the mask length is not a fork end of the set. In general it fails, as the finding below shows.
- IPSetSoundness.NewSetSound: requires the networks in order of non-decreasing mask length, for the same reason.
- IPSet.ContainsAt: its contract gives one direction. The exact meaning is `IPSetShape.ContainsMeaning`, on well-formed tries.
- CorrectedV4.InsertV4Fixed: its proved properties are the address it keeps, when it panics, `ReAddUnchanged` and the three examples. There is no general soundness proof for the corrected loop (no proof that it adds exactly a network's addresses), and no corrected arena `Add`.
- IPSetOrder.OffEnds: a sufficient condition only. It over-approximates the fork ends a list can create, so some orders that the code handles are not covered by it.

## Findings

| source | as written | input that shows it | evidently intended | confidence | as-written member | corrected member |
|---|---|---|---|---|---|---|
| ipset.go:109 (and tree.go:123) | the subsume guard `node.prefix < offset` is strict, so a network ending exactly where a fork ends descends into one child and cuts only that child back | 10.0.0.0/24, then 10.128.0.0/24, then 10.0.0.0/8; query 10.200.0.1 | `node.prefix <= offset`: the fork is cut back and every address of the /8 is contained, in any order | not executed | Counterexample.StrictGuardLosesAddress | Corrected.NewSetFixedSound |
| treeV4.go:111 | the descend test also needs `matching < cdr.prefix`, so a network that equals a leaf's own fits no case and reaches the panic at treeV4.go:170 | 172.17.0.0/24 added twice (ipset_test.go:77-83 gives it twice) | the network is enclosed and nothing is done, as the comment at treeV4.go:115-117 says | not executed | WalkV4.AddAgainPanics | CorrectedV4.ReAddUnchanged |
| treeV4.go:122 | on descending, the loop branches on the new address's bit at `matching`, not on the bit after the fork's extent that the comment at treeV4.go:120 and `Contains` at treeV4.go:195 use | 10.0.0.0/24, then 10.128.0.0/24, then 10.0.1.0/24; query 10.0.1.5 | branch on bit `offset + curr.prefix`, so the network lands where `Contains` looks for it | not executed | CounterexampleV4.BranchBitLosesAddress | CounterexampleV4.FixedBranches |
| treeV4.go:135 | the subsume guard `matching >= curr.prefix` compares the common prefix, counted from bit 0, with the node's own segment, so below the root it cuts back a node whose address leaves the new network before the mask length | 10.0.0.0/24, then 10.128.0.0/24, then 10.128.128.0/20; query 10.128.128.1 (lost) and 10.128.8.1 (in no network, yet contained) | `matching >= cdr.prefix`, as in ipset.go: the node agrees with the new network over its whole mask length | not executed | CounterexampleV4.SubsumeGuardLosesAddress | CounterexampleV4.FixedSubsumes |
