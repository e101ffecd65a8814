/** The node model of leaf.go and branch.go, the extension node those files
    use, and the structural `Raw` form with its embed-or-hash rule.

    Serialization (RLP) and the Keccak-256 digest come from a library outside
    the model; they enter as the fields of a `Codec`, about which the model
    assumes only what `ValidCodec` states. */
module Nodes {
  import opened Common
  import opened Nibbles

  /** A trie node. `Empty` is Go's nil slot. A Branch holds one slot per nibble
      (Go's `[16]Node`, see `Valid`) and an optional terminal value (nil when
      unset). An Extension is the path-compression node; `ExtensionNode` is
      declared elsewhere in the package and is not modelled from its
      definition, so its shape follows its uses in trie.go and proof.go. */
  datatype Node =
    | Empty
    | Leaf(path: seq<Nibble>, value: Bytes)
    | Extension(path: seq<Nibble>, next: Node)
    | Branch(branches: seq<Node>, branchValue: Option<Bytes>)

  /** The guarantee Go's fixed-size array gives: every Branch has 16 slots. */
  ghost predicate Valid(n: Node) {
    match n
    case Empty => true
    case Leaf(_, _) => true
    case Extension(_, next) => Valid(next)
    case Branch(bs, _) => |bs| == 16 && forall i | 0 <= i < 16 :: Valid(bs[i])
  }

  /** The shape rule the engine keeps: an Extension has a non-empty path and a
      present child. */
  ghost predicate ExtensionsProper(n: Node) {
    match n
    case Empty => true
    case Leaf(_, _) => true
    case Extension(path, next) => |path| > 0 && !next.Empty? && ExtensionsProper(next)
    case Branch(bs, _) => forall i | 0 <= i < |bs| :: ExtensionsProper(bs[i])
  }

  /** The other shape rule the engine keeps: every Branch has at least one
      present slot, so some key continues below it. */
  ghost predicate BranchesOccupied(n: Node) {
    match n
    case Empty => true
    case Leaf(_, _) => true
    case Extension(_, next) => BranchesOccupied(next)
    case Branch(bs, _) =>
      && (exists i | 0 <= i < |bs| :: !bs[i].Empty?)
      && forall i | 0 <= i < |bs| :: BranchesOccupied(bs[i])
  }

  /** A fresh branch: sixteen empty slots and no value. */
  function NewBranch(): (r: Node)
    ensures r.Branch? && Valid(r)
    ensures forall i | 0 <= i < 16 :: r.branches[i].Empty?
    ensures !HasValue(r)
  {
    Branch(seq(16, _ => Empty), None)
  }

  /** Writes `n` into slot `nb` of a branch; nothing else changes. */
  function SetBranch(b: Node, nb: Nibble, n: Node): (r: Node)
    requires b.Branch? && |b.branches| == 16
    ensures r.Branch? && |r.branches| == 16
    ensures r.branches[nb] == n
    ensures forall i | 0 <= i < 16 && i != nb :: r.branches[i] == b.branches[i]
    ensures r.branchValue == b.branchValue
  {
    b.(branches := b.branches[nb := n])
  }

  /** Sets the terminal value of a branch; the slots do not change. */
  function SetValue(b: Node, v: Bytes): (r: Node)
    requires b.Branch?
    ensures r.Branch? && r.branches == b.branches
    ensures HasValue(r) && r.branchValue.value == v
  {
    b.(branchValue := Some(v))
  }

  /** Whether some key terminates at this branch. */
  predicate HasValue(b: Node)
    requires b.Branch?
  {
    b.branchValue.Some?
  }

  /** The structural form that serialization encodes: a byte string or a list. */
  datatype Item = Str(bytes: Bytes) | List(items: seq<Item>)

  /** The collaborators the model does not define: the canonical encoding of a
      structural form, the 32-byte digest, and the empty-node constants. */
  datatype Codec = Codec(
    encode: Item -> Bytes,
    keccak: Bytes -> Bytes,
    emptyNodeRaw: Item,
    emptyNodeHash: Bytes)

  /** What the model assumes of the collaborators: digests are 32 bytes long,
      and a 32-byte string never encodes in under 32 bytes (RLP spends one
      length byte on it), so a hash reference is never mistaken for an inline
      node. */
  ghost predicate ValidCodec(c: Codec) {
    && (forall bs :: |c.keccak(bs)| == 32)
    && (forall h: Bytes :: |h| == 32 ==> |c.encode(Str(h))| >= 32)
    && |c.emptyNodeHash| == 32
  }

  /** The structural form of a node. A Leaf is `[hex-prefixed path, value]`,
      an Extension `[hex-prefixed path, child reference]`, a Branch its sixteen
      child references followed by its value (an unset value renders as the
      empty string, as RLP renders a nil slice). */
  function Raw(n: Node, c: Codec): Item
    decreases n, 0
  {
    match n
    case Empty => c.emptyNodeRaw
    case Leaf(path, value) => List([Str(ToBytes(ToPrefixed(path, true))), Str(value)])
    case Extension(path, next) => List([Str(ToBytes(ToPrefixed(path, false))), ChildRef(next, c)])
    case Branch(bs, v) =>
      List(seq(|bs|, i requires 0 <= i < |bs| => ChildRef(bs[i], c)) + [Str(v.GetOr([]))])
  }

  /** The canonical byte form of a node. */
  function Serialize(n: Node, c: Codec): Bytes
    decreases n, 1
  {
    c.encode(Raw(n, c))
  }

  /** The digest of a node: a function of its serialized form alone. */
  function Hash(n: Node, c: Codec): (r: Bytes)
    ensures ValidCodec(c) ==> |r| == 32
    decreases n, 2
  {
    c.keccak(Serialize(n, c))
  }

  /** How a parent refers to a child: the empty marker for an absent slot,
      the child's hash when it serializes to 32 bytes or more, and the child's
      own structural form otherwise. */
  function ChildRef(n: Node, c: Codec): Item
    decreases n, 3
  {
    if n.Empty? then c.emptyNodeRaw
    else if |Serialize(n, c)| >= 32 then Str(Hash(n, c))
    else Raw(n, c)
  }

  /** The digest a verifier recovers from a child reference, deciding inline
      versus hashed by the encoded length of the reference itself. */
  function RefDigest(ref: Item, c: Codec): Bytes {
    var e := c.encode(ref);
    if |e| < 32 then c.keccak(e)
    else if ref.Str? then ref.bytes
    else []
  }

  /** The packed hex-prefix form of a path: `|path| / 2 + 1` bytes whose first
      byte carries the flag nibble (2 or 3 for a leaf, 0 or 1 for an
      extension, the low bit being the parity) and, for an odd path, the
      path's first nibble. */
  lemma EncodedPath(path: seq<Nibble>, isLeaf: bool)
    ensures var e := ToBytes(ToPrefixed(path, isLeaf));
      && |e| == |path| / 2 + 1
      && e[0] / 16 == (if isLeaf then 2 else 0) + |path| % 2
      && e[0] % 16 == (if |path| % 2 == 1 then path[0] else 0)
  {
    var r := ToPrefixed(path, isLeaf);
    var e := ToBytes(r);
    assert e[0] == Pack(r[0], r[1]);
    if |path| % 2 == 1 {
      assert r[1] == path[0];
    }
  }

  /** A leaf renders as the two-element list of its leaf-flagged path and its
      value. */
  lemma LeafRaw(n: Node, c: Codec)
    requires n.Leaf?
    ensures Raw(n, c).List? && |Raw(n, c).items| == 2
    ensures Raw(n, c).items[0] == Str(ToBytes(ToPrefixed(n.path, true)))
    ensures Raw(n, c).items[0].bytes[0] / 16 == 2 + |n.path| % 2
    ensures Raw(n, c).items[1] == Str(n.value)
  {
    EncodedPath(n.path, true);
  }

  /** A branch renders as seventeen entries: one reference per slot, then the
      value. */
  lemma BranchRaw(n: Node, c: Codec)
    requires n.Branch? && |n.branches| == 16
    ensures Raw(n, c).List? && |Raw(n, c).items| == 17
    ensures Raw(n, c).items[16] == Str(n.branchValue.GetOr([]))
    ensures forall i | 0 <= i < 16 :: Raw(n, c).items[i] == ChildRef(n.branches[i], c)
    ensures forall i | 0 <= i < 16 && n.branches[i].Empty? :: Raw(n, c).items[i] == c.emptyNodeRaw
  {
  }

  /** The embed-or-hash rule as a verifier sees it: an inline reference
      encodes in under 32 bytes and is the child's own form; a hashed one
      carries the 32-byte digest. */
  lemma ChildRefShape(n: Node, c: Codec)
    requires ValidCodec(c)
    requires !n.Empty?
    ensures |Serialize(n, c)| < 32 ==> ChildRef(n, c) == Raw(n, c) && |c.encode(ChildRef(n, c))| < 32
    ensures |Serialize(n, c)| >= 32 ==> ChildRef(n, c) == Str(Hash(n, c)) && |c.encode(ChildRef(n, c))| >= 32
  {
  }

  /** Construction and verification apply the same threshold: from the
      reference a parent stores, a verifier recovers exactly the child's hash. */
  lemma ChildRefDigest(n: Node, c: Codec)
    requires ValidCodec(c)
    requires !n.Empty?
    ensures RefDigest(ChildRef(n, c), c) == Hash(n, c)
  {
    ChildRefShape(n, c);
  }

  /** Nodes that serialize alike hash alike: no node carries hash state of its
      own. */
  lemma HashBySerialize(a: Node, b: Node, c: Codec)
    requires Serialize(a, c) == Serialize(b, c)
    ensures Hash(a, c) == Hash(b, c)
  {
  }
}
