/**
 * The `uint128set` of tree.go. Its node type, `uint128FromIP`,
 * `nodeFromNet` and `matchingPrefix2` are the same as ipset.go's and are
 * shared with module IPSet; its `Add` tests the three-way split before the
 * subsume case. The two guards exclude each other (one needs
 * `matching < node.prefix`, the other `matching >= node.prefix`), so the
 * two insertions build the same trie.
 */
module Tree {
  import opened Results
  import opened Machine
  import opened Bits
  import opened IPSet
  // The opened import's datatype `IPSet` hides the module's name, so the
  // module's own `Add`, `NewSet` and `Contains` are named through this alias.
  import Ipset = IPSet
  import opened IPSetShape
  import opened Encoding

  /** The loop of `uint128set.Add` from node n: three-way split, subsume,
    * absorb, or descend. */
  function Insert(n: Node, off: u32, addr: Key, plen: u32): (r: Node)
    ensures r.addr == n.addr
  {
    var matching := MatchingPrefix(addr, n.addr);
    var offset := Add32(off, n.prefix);
    if matching < plen && matching < offset then
      Split(n, offset, matching, addr, plen)
    else if matching >= plen && plen < offset then
      Leaf(n.addr, Add32(n.prefix, Sub32(plen, offset)))
    else if n.Leaf? then
      n
    else if !Bit(addr, offset) then
      n.(left := Insert(n.left, offset, addr, plen))
    else
      n.(right := Insert(n.right, offset, addr, plen))
  }

  /** Testing the split first or the subsume first makes no difference. */
  lemma {:induction false} InsertSame(n: Node, off: u32, addr: Key, plen: u32)
    ensures Insert(n, off, addr, plen) == InsertAt(n, off, addr, plen)
  {
    var matching := MatchingPrefix(addr, n.addr);
    var offset := Add32(off, n.prefix);
    if matching < plen && matching < offset {
    } else if matching >= plen && plen < offset {
    } else if n.Leaf? {
    } else if !Bit(addr, offset) {
      InsertSame(n.left, offset, addr, plen);
    } else {
      InsertSame(n.right, offset, addr, plen);
    }
  }

  /** Absorb: a network that neither splits nor subsumes a leaf is already
    * inside it, and the trie is left as it is. */
  lemma AbsorbUnchanged(n: Node, off: u32, addr: Key, plen: u32)
    requires n.Leaf?
    requires !(MatchingPrefix(addr, n.addr) < plen && MatchingPrefix(addr, n.addr) < Add32(off, n.prefix))
    requires !(MatchingPrefix(addr, n.addr) >= plen && plen < Add32(off, n.prefix))
    ensures Insert(n, off, addr, plen) == n
    ensures MatchingPrefix(addr, n.addr) >= Add32(off, n.prefix)
  {
  }

  /** `uint128set.Add`: a network `nodeFromNet` rejects is an error (the Go
    * code panics); an empty set takes the new leaf as its root. */
  function Add(s: IPSet, cidr: Option<IPNet>): (r: Result<IPSet, Error>)
    ensures r.Ok? <==> Valid(cidr)
    ensures r.Err? ==> r.error == NodeFromNet(cidr).error
    ensures r.Ok? && s.root.None? ==> r.value.root == Some(NodeFromNet(cidr).value)
  {
    match NodeFromNet(cidr)
    case Err(e) => Err(e)
    case Ok(node) =>
      match s.root
      case None => Ok(IPSet(Some(node)))
      case Some(root) => Ok(IPSet(Some(Insert(root, 0, node.addr, node.prefix))))
  }

  /** Both files' `Add` give the same result on every set and network. */
  lemma AddSame(s: IPSet, cidr: Option<IPNet>)
    ensures Add(s, cidr) == Ipset.Add(s, cidr)
  {
    if Valid(cidr) && s.root.Some? {
      var node := NodeFromNet(cidr).value;
      InsertSame(s.root.value, 0, node.addr, node.prefix);
    }
  }

  /** The networks added one after another; the first failure aborts. */
  function AddAll(s: IPSet, cidrs: seq<Option<IPNet>>): (r: Result<IPSet, Error>)
    ensures r.Ok? <==> AllValid(cidrs)
    decreases |cidrs|
  {
    if |cidrs| == 0 then Ok(s)
    else
      var first := Add(s, cidrs[0]);
      AllValidCons(cidrs);
      if first.Err? then Err(first.error) else AddAll(first.value, cidrs[1..])
  }

  lemma {:induction false} AddAllSame(s: IPSet, cidrs: seq<Option<IPNet>>)
    ensures AddAll(s, cidrs) == Ipset.AddAll(s, cidrs)
    decreases |cidrs|
  {
    if |cidrs| > 0 {
      AddSame(s, cidrs[0]);
      if Add(s, cidrs[0]).Ok? {
        AddAllSame(Add(s, cidrs[0]).value, cidrs[1..]);
      }
    }
  }

  /** `NewSet2`: the empty set with every network added in order. */
  function NewSet(cidrs: seq<Option<IPNet>>): (r: Result<IPSet, Error>)
    ensures r.Ok? <==> AllValid(cidrs)
  {
    AddAll(IPSet(None), cidrs)
  }

  /** `NewSet2` and ipset.go's `NewSet` build the same set. */
  lemma NewSetSame(cidrs: seq<Option<IPNet>>)
    ensures NewSet(cidrs) == Ipset.NewSet(cidrs)
  {
    AddAllSame(IPSet(None), cidrs);
  }

  /** `uint128set.Contains` is ipset.go's query line for line, so it is
    * that query. */
  function Contains(s: IPSet, ip: seq<byte>): (r: bool)
    ensures s.root.None? ==> !r
    ensures Uint128FromIP(ip).Err? ==> !r
    ensures r ==> ContainsAt(s.root.value, 0, Uint128FromIP(ip).value)
  {
    Ipset.Contains(s, ip)
  }

  /** On a well-formed trie the query answers membership in a leaf's network. */
  lemma ContainsMeaning2(s: IPSet, ip: seq<byte>)
    requires WfSet(s)
    ensures Contains(s, ip)
        <==> s.root.Some? && Uint128FromIP(ip).Ok? && InSomeLeaf(s.root.value, 0, Uint128FromIP(ip).value)
  {
    ContainsSet(s, ip);
  }

  /** `uint128set.ContainsRawIPv4`: the query for the four big-endian bytes of x. */
  function ContainsRawIPv4(s: IPSet, x: u32): bool
  {
    Contains(s, PutBigEndian(x, 4))
  }

  /** `uint128set.ContainsRawIPv4` of the big-endian value of four bytes is
    * `Contains` of those bytes, and both agree with ipset.go. */
  lemma ContainsRawIPv4Same(s: IPSet, ip: seq<byte>)
    requires |ip| == 4
    ensures BigEndian(ip) < TWO_32
    ensures ContainsRawIPv4(s, BigEndian(ip)) == Contains(s, ip)
    ensures ContainsRawIPv4(s, BigEndian(ip)) == Ipset.ContainsRawIPv4(s, BigEndian(ip))
  {
    ContainsRawIPv4Bytes(s, ip);
  }
}
