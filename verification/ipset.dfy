/**
 * The prefix set of ipset.go: a path-compressed binary (Patricia) trie over
 * one 128-bit keyspace in which IPv4 addresses live at their IPv4-mapped
 * IPv6 positions.
 */
module IPSet {
  import opened Results
  import opened Machine
  import opened Bits

  /** `treeNode`. `prefix` is the length of the node's own segment; the
    * node's cumulative extent is its parent's extent plus `prefix`. A Go
    * node has both children or neither, which the two constructors encode. */
  datatype Node =
    | Leaf(addr: seq<bool>, prefix: u32)
    | Fork(addr: seq<bool>, prefix: u32, left: Node, right: Node)

  /** A parsed `*net.IPNet`: the address bytes and the `(ones, bits)` pair
    * that `Mask.Size()` reports for its mask. */
  datatype IPNet = IPNet(ip: seq<byte>, ones: nat, bits: nat)

  datatype Error = NilNet | InvalidIP(ip: seq<byte>)

  /** `ipset`: an empty set has no root. */
  datatype IPSet = IPSet(root: Option<Node>)

  /** The twelve bytes that precede an IPv4 address in its IPv4-mapped
    * IPv6 form `::ffff:a.b.c.d` (section 2.5.5.2 of RFC 4291). */
  const V4_IN_V6: seq<byte> := [0, 0, 0, 0, 0, 0, 0, 0, 0, 0, 0xff, 0xff]

  /** `ip.To16()`: four bytes become their IPv4-mapped form, sixteen stay as
    * they are, any other length has no 16-byte form. */
  function To16(ip: seq<byte>): (r: Option<seq<byte>>)
    ensures r.Some? <==> |ip| == 4 || |ip| == 16
    ensures r.Some? ==> |r.value| == 16
  {
    if |ip| == 4 then Some(V4_IN_V6 + ip) else if |ip| == 16 then Some(ip) else None
  }

  /** `uint128FromIP`: the 16-byte form read as two big-endian 64-bit halves,
    * high half first. */
  function Uint128FromIP(ip: seq<byte>): (r: Result<Key, Error>)
    ensures r.Ok? <==> |ip| == 4 || |ip| == 16
    ensures r.Err? ==> r.error == InvalidIP(ip)
  {
    match To16(ip)
    case None => Err(InvalidIP(ip))
    case Some(v6) => Ok(FromHiLo(BigEndian(v6[..8]), BigEndian(v6[8..])))
  }

  /** The key of an address is the bit expansion of its 16-byte form, byte
    * by byte: an IPv6 address as it is, an IPv4 address after the mapped
    * prefix. */
  lemma Uint128FromIPBits(ip: seq<byte>)
    ensures |ip| == 16 ==> Uint128FromIP(ip) == Ok(BytesToBits(ip))
    ensures |ip| == 4 ==> Uint128FromIP(ip) == Ok(BytesToBits(V4_IN_V6) + BytesToBits(ip))
  {
    if To16(ip).Some? {
      var v6 := To16(ip).value;
      var hi, lo := v6[..8], v6[8..];
      BigEndianBits(hi);
      BigEndianBits(lo);
      BytesToBitsAppend(hi, lo);
      assert hi + lo == v6;
      BytesToBitsAppend(V4_IN_V6, ip);
    }
  }

  /** The mask length in the 128-bit keyspace: a mask narrower than 128
    * bits is an IPv4 mask and is moved past the 96-bit mapped prefix. */
  function MaskLength(ones: nat, bits: nat): (r: u32)
    ensures ones + 96 < TWO_32 && bits < 128 ==> r == ones + 96
    ensures ones < TWO_32 && bits >= 128 ==> r == ones
  {
    ToU32(if bits < 128 then ones + 96 else ones)
  }

  /** `nodeFromNet`: a nil network or an address without a 16-byte form is
    * an error; otherwise the leaf that the network becomes. */
  function NodeFromNet(cidr: Option<IPNet>): (r: Result<Node, Error>)
    ensures r.Ok? <==> cidr.Some? && (|cidr.value.ip| == 4 || |cidr.value.ip| == 16)
    ensures cidr.None? ==> r == Err(NilNet)
    ensures r.Ok? ==> r.value.Leaf? && |r.value.addr| == 128
    ensures r.Ok? ==> r.value.prefix == MaskLength(cidr.value.ones, cidr.value.bits)
    ensures r.Ok? ==> Uint128FromIP(cidr.value.ip) == Ok(r.value.addr)
  {
    match cidr
    case None => Err(NilNet)
    case Some(c) =>
      match Uint128FromIP(c.ip)
      case Err(e) => Err(e)
      case Ok(addr) => Ok(Leaf(addr, MaskLength(c.ones, c.bits)))
  }

  /** The walk of `ipset.Contains` from node n, whose ancestors' segments
    * add up to off. */
  function ContainsAt(n: Node, off: u32, k: seq<bool>): (r: bool)
    ensures r ==> MatchingPrefix(k, n.addr) >= Add32(off, n.prefix)
  {
    var matching := MatchingPrefix(k, n.addr);
    var offset := Add32(off, n.prefix);
    if matching < offset then false
    else if n.Leaf? || matching == |k| then true
    else if !Bit(k, offset) then ContainsAt(n.left, offset, k)
    else ContainsAt(n.right, offset, k)
  }

  /** The three-way split of `ipset.Add`: n, whose extent ends at offset,
    * is cut back to bit `matching`; the cut-off remainder of n and a leaf
    * for the new network `addr/plen` become its two children, ordered by
    * n's bit at `matching`. */
  function Split(n: Node, offset: u32, matching: u32, addr: seq<bool>, plen: u32): (r: Node)
    ensures r.Fork? && r.addr == n.addr
  {
    var newNode := Leaf(addr, Sub32(plen, matching));
    var splitted := n.(prefix := Sub32(offset, matching));
    var p := Add32(n.prefix, Sub32(matching, offset));
    if !Bit(n.addr, matching) then Fork(n.addr, p, splitted, newNode)
    else Fork(n.addr, p, newNode, splitted)
  }

  /** The loop of `ipset.Add` from node n (ancestors' segments add up to
    * off) for the new network `addr/plen`: subsume, three-way split,
    * absorb, or descend. */
  function InsertAt(n: Node, off: u32, addr: Key, plen: u32): (r: Node)
    ensures r.addr == n.addr
  {
    var matching := MatchingPrefix(addr, n.addr);
    var offset := Add32(off, n.prefix);
    if matching >= plen && plen < offset then
      // the new network is coarser: cut the node back and drop its subtree
      Leaf(n.addr, Add32(n.prefix, Sub32(plen, offset)))
    else if matching < plen && matching < offset then
      // the new network leaves this segment part-way
      Split(n, offset, matching, addr, plen)
    else if n.Leaf? then
      // the leaf already encloses the new network
      n
    else if !Bit(addr, offset) then
      n.(left := InsertAt(n.left, offset, addr, plen))
    else
      n.(right := InsertAt(n.right, offset, addr, plen))
  }

  /** `ipset.Contains`: false for an empty set and for an address without a
    * 16-byte form; never fails. */
  function Contains(s: IPSet, ip: seq<byte>): (r: bool)
    ensures s.root.None? ==> !r
    ensures Uint128FromIP(ip).Err? ==> !r
    ensures r ==> ContainsAt(s.root.value, 0, Uint128FromIP(ip).value)
  {
    match s.root
    case None => false
    case Some(root) =>
      match Uint128FromIP(ip)
      case Err(_) => false
      case Ok(k) => ContainsAt(root, 0, k)
  }

  /** `ipset.ContainsRawIPv4`: the query for the four big-endian bytes of x. */
  function ContainsRawIPv4(s: IPSet, x: u32): bool
  {
    Contains(s, PutBigEndian(x, 4))
  }

  /** A network `nodeFromNet` accepts. */
  predicate Valid(cidr: Option<IPNet>)
  {
    cidr.Some? && (|cidr.value.ip| == 4 || |cidr.value.ip| == 16)
  }

  /** `ipset.Add`. The Go code panics when `nodeFromNet` fails; here that is
    * an error result, raised before the trie is looked at. An empty set
    * takes the new leaf as its root. */
  function Add(s: IPSet, cidr: Option<IPNet>): (r: Result<IPSet, Error>)
    ensures r.Ok? <==> Valid(cidr)
    ensures r.Err? ==> r.error == NodeFromNet(cidr).error
    ensures r.Ok? ==> r.value.root.Some?
    ensures r.Ok? && s.root.None? ==> r.value.root == Some(NodeFromNet(cidr).value)
    ensures r.Ok? && s.root.Some? ==> r.value.root.value.addr == s.root.value.addr
  {
    match NodeFromNet(cidr)
    case Err(e) => Err(e)
    case Ok(node) =>
      match s.root
      case None => Ok(IPSet(Some(node)))
      case Some(root) => Ok(IPSet(Some(InsertAt(root, 0, node.addr, node.prefix))))
  }

  /** Every network of the list can be added. */
  predicate AllValid(cidrs: seq<Option<IPNet>>)
  {
    forall i :: 0 <= i < |cidrs| ==> Valid(cidrs[i])
  }

  lemma AllValidCons(cidrs: seq<Option<IPNet>>)
    requires |cidrs| > 0
    ensures AllValid(cidrs) <==> Valid(cidrs[0]) && AllValid(cidrs[1..])
  {
    assert forall i :: 1 <= i < |cidrs| ==> cidrs[i] == cidrs[1..][i - 1];
  }

  /** Adds the networks one after another, in order; the first one that
    * cannot be added aborts the whole construction. */
  function AddAll(s: IPSet, cidrs: seq<Option<IPNet>>): (r: Result<IPSet, Error>)
    ensures r.Ok? <==> AllValid(cidrs)
    ensures r.Ok? ==> (r.value.root.Some? <==> s.root.Some? || |cidrs| > 0)
    decreases |cidrs|
  {
    if |cidrs| == 0 then Ok(s)
    else
      var first := Add(s, cidrs[0]);
      if first.Err? then
        Err(first.error)
      else
        AllValidCons(cidrs);
        AddAll(first.value, cidrs[1..])
  }

  /** `NewSet`: the empty set with every network added in order. */
  function NewSet(cidrs: seq<Option<IPNet>>): (r: Result<IPSet, Error>)
    ensures r.Ok? <==> AllValid(cidrs)
    ensures r.Ok? ==> (r.value.root.Some? <==> |cidrs| > 0)
  {
    AddAll(IPSet(None), cidrs)
  }
}
