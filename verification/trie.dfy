/** The trie engine of trie.go: the root slot, the trie hash, and insertion
    with its leaf-split, extension-split and descent transitions.

    Go rewrites a mutable slot pointer while it descends; here `PutAt` returns
    the new subtree and each level stores it into its own slot. */
module Tries {
  import opened Common
  import opened Nibbles
  import opened Nodes

  /** A trie is its root slot; `Empty` is the empty trie. */
  datatype Trie = Trie(root: Node)

  function NewTrie(): (t: Trie)
    ensures Valid(t.root) && t.root.Empty?
  {
    Trie(Empty)
  }

  /** The root hash: the fixed empty-trie digest for an empty root, else the
      root node's hash. */
  function TrieHash(t: Trie, c: Codec): (r: Bytes)
    ensures t.root.Empty? ==> r == c.emptyNodeHash
    ensures !t.root.Empty? ==> r == c.keccak(Serialize(t.root, c))
    ensures ValidCodec(c) ==> |r| == 32
  {
    if t.root.Empty? then c.emptyNodeHash else Hash(t.root, c)
  }

  /** The key lookup the engine's structure supports: the walk of proof.go,
      returning the value at the terminal node. */
  ghost function Lookup(n: Node, k: seq<Nibble>): Option<Bytes>
    requires Valid(n)
    decreases n
  {
    match n
    case Empty => None
    case Leaf(path, v) =>
      var m := PrefixMatchedLen(k, path);
      if |path| == m && |k| == m then Some(v) else None
    case Branch(bs, bv) =>
      if |k| == 0 then bv else Lookup(bs[k[0]], k[1..])
    case Extension(path, next) =>
      var m := PrefixMatchedLen(k, path);
      if m < |path| then None else Lookup(next, k[m..])
  }

  /** The key-level lookup: the value stored under `key`, if any. */
  ghost function Get(t: Trie, key: Bytes): Option<Bytes>
    requires Valid(t.root)
  {
    Lookup(t.root, FromBytes(key))
  }

  /** The two places where Put indexes past the end of its key and panics. */
  datatype PanicSite =
    | BranchKeyExhausted     // the key ends exactly at an existing Branch
    | ExtensionKeyExhausted  // the key ends strictly inside an Extension's path

  /** The outcome of one insertion step: the new subtree, or a panic. */
  datatype Step = Done(node: Node) | Panic(site: PanicSite)

  /** A shared prefix over `n`: an Extension when the prefix is non-empty,
      else `n` itself (an Extension is never built over an empty path). */
  function Wrap(prefix: seq<Nibble>, n: Node): (r: Node)
    ensures Valid(n) ==> Valid(r)
    ensures ExtensionsProper(n) && !n.Empty? ==> ExtensionsProper(r) && !r.Empty?
  {
    if |prefix| > 0 then Extension(prefix, n) else n
  }

  /** Put arriving at a Leaf: the same path updates the value, otherwise a
      branch is built at the first divergence, under an Extension over the
      shared prefix when there is one. */
  function SplitLeaf(path: seq<Nibble>, prior: Bytes, k: seq<Nibble>, v: Bytes): (r: Node)
    ensures Valid(r) && ExtensionsProper(r) && !r.Empty?
  {
    var m := PrefixMatchedLen(path, k);
    if m == |path| && m == |k| then Leaf(path, v)
    else
      var b0 := NewBranch();
      var b1 := if m == |path| then SetValue(b0, prior) else b0;
      var b2 := if m == |k| then SetValue(b1, v) else b1;
      var b3 := if m < |path| then SetBranch(b2, path[m], Leaf(path[m + 1..], prior)) else b2;
      var b4 := if m < |k| then SetBranch(b3, k[m], Leaf(k[m + 1..], v)) else b3;
      assert Valid(b4) && ExtensionsProper(b4);
      Wrap(path[..m], b4)
  }

  /** Put diverging inside an Extension's path: a branch at the divergence
      holds the rest of the prior extension and a new leaf for the key. */
  function SplitExtension(path: seq<Nibble>, next: Node, k: seq<Nibble>, v: Bytes): (r: Node)
    requires PrefixMatchedLen(path, k) < |path| && PrefixMatchedLen(path, k) < |k|
    ensures Valid(next) ==> Valid(r)
    ensures ExtensionsProper(next) && !next.Empty? ==> ExtensionsProper(r) && !r.Empty?
  {
    var m := PrefixMatchedLen(path, k);
    var b0 := NewBranch();
    var b1 := SetBranch(b0, path[m], Wrap(path[m + 1..], next));
    var b2 := SetBranch(b1, k[m], Leaf(k[m + 1..], v));
    assert forall i | 0 <= i < 16 && i != k[m] && i != path[m] :: b2.branches[i] == Empty;
    assert Valid(next) ==> Valid(b2) by {
      if Valid(next) {
        assert Valid(Wrap(path[m + 1..], next));
      }
    }
    assert ExtensionsProper(next) && !next.Empty? ==> ExtensionsProper(b2) by {
      if ExtensionsProper(next) && !next.Empty? {
        assert ExtensionsProper(Wrap(path[m + 1..], next));
      }
    }
    Wrap(path[..m], b2)
  }

  /** Inserts `v` under the nibble key `k` below `n`. */
  function PutAt(n: Node, k: seq<Nibble>, v: Bytes): (r: Step)
    requires Valid(n)
    ensures r.Done? ==> Valid(r.node) && !r.node.Empty?
    ensures r.Done? && ExtensionsProper(n) ==> ExtensionsProper(r.node)
    decreases n
  {
    match n
    case Empty => Done(Leaf(k, v))
    case Leaf(path, prior) => Done(SplitLeaf(path, prior, k, v))
    case Branch(bs, bv) =>
      if |k| == 0 then Panic(BranchKeyExhausted)
      else
        (match PutAt(bs[k[0]], k[1..], v)
         case Panic(site) => Panic(site)
         case Done(child) => Done(Branch(bs[k[0] := child], bv)))
    case Extension(path, next) =>
      var m := PrefixMatchedLen(path, k);
      if m < |path| then
        if m == |k| then Panic(ExtensionKeyExhausted)
        else Done(SplitExtension(path, next, k, v))
      else
        (match PutAt(next, k[m..], v)
         case Panic(site) => Panic(site)
         case Done(child) => Done(Extension(path, child)))
  }

  /** A sequence is its prefix, the element at the cut, and the rest. */
  lemma SplitAt(s: seq<Nibble>, m: nat)
    requires m < |s|
    ensures s == s[..m] + [s[m]] + s[m + 1..]
  {
  }

  /** Looking up through an Extension: its path must lead the key, and the
      lookup continues below it with the path consumed. */
  lemma LookupExtension(path: seq<Nibble>, n: Node, q: seq<Nibble>)
    requires Valid(n)
    ensures Lookup(Extension(path, n), q) == if path <= q then Lookup(n, q[|path|..]) else None
  {
    PrefixMatchedLenSymmetric(q, path);
    PrefixMatchedLenFull(path, q);
  }

  /** The same through a shared prefix, whether or not it built an Extension. */
  lemma LookupWrap(prefix: seq<Nibble>, n: Node, q: seq<Nibble>)
    requires Valid(n)
    ensures Lookup(Wrap(prefix, n), q) == if prefix <= q then Lookup(n, q[|prefix|..]) else None
  {
    LookupExtension(prefix, n, q);
  }

  /** A leaf answers exactly the key equal to its path. */
  lemma LookupLeaf(path: seq<Nibble>, v: Bytes, q: seq<Nibble>)
    ensures Lookup(Leaf(path, v), q) == if q == path then Some(v) else None
  {
    PrefixMatchedLenSymmetric(q, path);
    PrefixMatchedLenFull(path, q);
  }

  /** The shape of a leaf split at `m`, the shared length of the leaf's path
      and the key: a branch under an Extension over the shared prefix (when
      `m > 0`) whose value is the leaf's value exactly when its path is used
      up and the new value exactly when the key is, and whose slots at the two
      divergent nibbles hold leaves for the two remainders. */
  lemma SplitLeafShape(path: seq<Nibble>, prior: Bytes, k: seq<Nibble>, v: Bytes) returns (m: nat, b: Node)
    requires path != k
    ensures m == PrefixMatchedLen(path, k) && m <= |path| && m <= |k|
    ensures path[..m] == k[..m]
    ensures SplitLeaf(path, prior, k, v) == Wrap(path[..m], b)
    ensures b.Branch? && |b.branches| == 16 && Valid(b)
    ensures m == |path| ==> b.branchValue == Some(prior)
    ensures m == |k| ==> b.branchValue == Some(v)
    ensures m < |path| && m < |k| ==> b.branchValue.None?
    ensures m < |path| && m < |k| ==> path[m] != k[m]
    ensures m < |path| ==> b.branches[path[m]] == Leaf(path[m + 1..], prior)
    ensures m < |k| ==> b.branches[k[m]] == Leaf(k[m + 1..], v)
    ensures forall i | 0 <= i < 16 && (m == |path| || i != path[m]) && (m == |k| || i != k[m]) ::
      b.branches[i].Empty?
  {
    m := PrefixMatchedLen(path, k);
    var r := SplitLeaf(path, prior, k, v);
    b := if m > 0 then r.next else r;
  }

  /** After a leaf split, the key inserted answers with the new value, the
      leaf's own path with the value it held, and every other key with
      nothing: the split loses and invents no entry. */
  lemma SplitLeafLookup(path: seq<Nibble>, prior: Bytes, k: seq<Nibble>, v: Bytes, q: seq<Nibble>)
    ensures Lookup(SplitLeaf(path, prior, k, v), q)
         == if q == k then Some(v) else if q == path then Some(prior) else None
  {
    if path == k {
      PrefixMatchedLenSelf(path);
      LookupLeaf(path, v, q);
      return;
    }
    var m, b := SplitLeafShape(path, prior, k, v);
    LookupWrap(path[..m], b, q);
    if path[..m] <= q {
      LeafBranchLookup(path, prior, k, v, m, b, q);
    } else {
      assert path[..m] <= path && k[..m] <= k;
    }
  }

  /** The branch built by a leaf split, reached with the shared prefix
      consumed, answers the two keys it was built from and nothing else. */
  lemma LeafBranchLookup(path: seq<Nibble>, prior: Bytes, k: seq<Nibble>, v: Bytes, m: nat, b: Node, q: seq<Nibble>)
    requires path != k && m <= |path| && m <= |k| && path[..m] == k[..m]
    requires b.Branch? && |b.branches| == 16 && Valid(b)
    requires m == |path| ==> b.branchValue == Some(prior)
    requires m == |k| ==> b.branchValue == Some(v)
    requires m < |path| && m < |k| ==> b.branchValue.None?
    requires m < |path| && m < |k| ==> path[m] != k[m]
    requires m < |path| ==> b.branches[path[m]] == Leaf(path[m + 1..], prior)
    requires m < |k| ==> b.branches[k[m]] == Leaf(k[m + 1..], v)
    requires forall i | 0 <= i < 16 && (m == |path| || i != path[m]) && (m == |k| || i != k[m]) ::
      b.branches[i].Empty?
    requires path[..m] <= q
    ensures Lookup(b, q[m..]) == if q == k then Some(v) else if q == path then Some(prior) else None
  {
    var s := q[m..];
    assert q == path[..m] + s;
    if |s| == 0 {
      return;
    }
    var i := s[0];
    assert Lookup(b, s) == Lookup(b.branches[i], s[1..]);
    assert q == path[..m] + [i] + s[1..];
    if m < |path| && i == path[m] {
      LookupLeaf(path[m + 1..], prior, s[1..]);
      SplitAt(path, m);
      assert q != k by {
        if m < |k| { assert q[m] != k[m]; }
      }
    } else if m < |k| && i == k[m] {
      LookupLeaf(k[m + 1..], v, s[1..]);
      SplitAt(k, m);
      assert q != path by {
        if m < |path| { assert q[m] != path[m]; }
      }
    } else {
      assert b.branches[i].Empty?;
      assert q != path by {
        if m < |path| { assert q[m] != path[m]; }
      }
      assert q != k by {
        if m < |k| { assert q[m] != k[m]; }
      }
    }
  }

  /** The shape of an extension split at `m`, the length the key shares with
      the extension's path: a branch under an Extension over the shared prefix
      (when `m > 0`), without a value, whose slot at the path's divergent
      nibble continues to the old child (through an Extension over the rest of
      the path when that rest is non-empty) and whose slot at the key's
      divergent nibble holds a leaf for the key's remainder. */
  lemma SplitExtensionShape(path: seq<Nibble>, next: Node, k: seq<Nibble>, v: Bytes) returns (m: nat, b: Node)
    requires Valid(next)
    requires PrefixMatchedLen(path, k) < |path| && PrefixMatchedLen(path, k) < |k|
    ensures m == PrefixMatchedLen(path, k) && path[..m] == k[..m] && path[m] != k[m]
    ensures SplitExtension(path, next, k, v) == Wrap(path[..m], b)
    ensures b.Branch? && |b.branches| == 16 && Valid(b) && b.branchValue.None?
    ensures b.branches[path[m]] == Wrap(path[m + 1..], next)
    ensures b.branches[k[m]] == Leaf(k[m + 1..], v)
    ensures forall i | 0 <= i < 16 && i != path[m] && i != k[m] :: b.branches[i].Empty?
  {
    m := PrefixMatchedLen(path, k);
    var r := SplitExtension(path, next, k, v);
    b := if m > 0 then r.next else r;
  }

  /** Matching a path one nibble at a time: past an agreed prefix and an
      agreed nibble, the path leads the key exactly when the rest of the path
      leads the rest of the key. */
  lemma PrefixStep(path: seq<Nibble>, m: nat, q: seq<Nibble>)
    requires m < |path| && m < |q|
    requires path[..m] == q[..m] && path[m] == q[m]
    ensures path <= q <==> path[m + 1..] <= q[m + 1..]
    ensures path <= q ==> q[|path|..] == q[m + 1..][|path| - m - 1..]
  {
    if path[m + 1..] <= q[m + 1..] {
      assert path == path[..m] + [path[m]] + path[m + 1..];
      assert q[..|path|] == q[..m] + [q[m]] + q[m + 1..][..|path| - m - 1];
    }
  }

  /** After an extension split, the key inserted answers with the new value
      and every other key answers as it did before the split. */
  lemma SplitExtensionLookup(path: seq<Nibble>, next: Node, k: seq<Nibble>, v: Bytes, q: seq<Nibble>)
    requires Valid(next)
    requires PrefixMatchedLen(path, k) < |path| && PrefixMatchedLen(path, k) < |k|
    ensures Lookup(SplitExtension(path, next, k, v), q)
         == if q == k then Some(v) else Lookup(Extension(path, next), q)
  {
    var m, b := SplitExtensionShape(path, next, k, v);
    LookupExtension(path, next, q);
    LookupWrap(path[..m], b, q);
    if path[..m] <= q {
      ExtensionBranchLookup(path, next, k, v, m, b, q);
    } else {
      assert path[..m] <= path && k[..m] <= k;
    }
  }

  /** The branch built by an extension split, reached with the shared prefix
      consumed, answers the new key and otherwise what the old extension did. */
  lemma ExtensionBranchLookup(path: seq<Nibble>, next: Node, k: seq<Nibble>, v: Bytes, m: nat, b: Node, q: seq<Nibble>)
    requires Valid(next)
    requires m < |path| && m < |k| && path[..m] == k[..m] && path[m] != k[m]
    requires b.Branch? && |b.branches| == 16 && Valid(b) && b.branchValue.None?
    requires b.branches[path[m]] == Wrap(path[m + 1..], next)
    requires b.branches[k[m]] == Leaf(k[m + 1..], v)
    requires forall i | 0 <= i < 16 && i != path[m] && i != k[m] :: b.branches[i].Empty?
    requires path[..m] <= q
    ensures Lookup(b, q[m..])
         == if q == k then Some(v) else if path <= q then Lookup(next, q[|path|..]) else None
  {
    if |q| == m {
      assert q != k && !(path <= q);
      return;
    }
    var i := q[m];
    assert Lookup(b, q[m..]) == Lookup(b.branches[i], q[m + 1..]);
    if i == path[m] {
      OldSlotLookup(path, next, k, m, q);
    } else if i == k[m] {
      NewSlotLookup(path, k, v, m, q);
    } else {
      assert b.branches[i].Empty?;
      assert !(path <= q) by { assert q[m] != path[m]; }
      assert q != k by { assert q[m] != k[m]; }
    }
  }

  /** Past the divergence on the old path's side, lookups go on as they did
      through the old extension, and the new key is not among them. */
  lemma OldSlotLookup(path: seq<Nibble>, next: Node, k: seq<Nibble>, m: nat, q: seq<Nibble>)
    requires Valid(next)
    requires m < |path| && m < |k| && m < |q| && path[m] != k[m]
    requires path[..m] <= q && q[m] == path[m]
    ensures q != k
    ensures Lookup(Wrap(path[m + 1..], next), q[m + 1..])
         == if path <= q then Lookup(next, q[|path|..]) else None
  {
    LookupWrap(path[m + 1..], next, q[m + 1..]);
    PrefixStep(path, m, q);
    assert q[m] != k[m];
  }

  /** Past the divergence on the new key's side, only the new key is found. */
  lemma NewSlotLookup(path: seq<Nibble>, k: seq<Nibble>, v: Bytes, m: nat, q: seq<Nibble>)
    requires m < |path| && m < |k| && m < |q| && path[..m] == k[..m] && path[m] != k[m]
    requires path[..m] <= q && q[m] == k[m]
    ensures !(path <= q)
    ensures Lookup(Leaf(k[m + 1..], v), q[m + 1..]) == if q == k then Some(v) else None
  {
    LookupLeaf(k[m + 1..], v, q[m + 1..]);
    assert q[m] != path[m];
    SplitAt(k, m);
    assert q == k[..m] + [q[m]] + q[m + 1..];
  }

  /** Insertion round trip and frame: after a successful insertion of `v`
      under `k`, the key `k` answers `v` and every other key answers what it
      answered before. */
  lemma {:induction false} PutAtLookup(n: Node, k: seq<Nibble>, v: Bytes, q: seq<Nibble>)
    requires Valid(n)
    requires PutAt(n, k, v).Done?
    ensures Lookup(PutAt(n, k, v).node, q) == if q == k then Some(v) else Lookup(n, q)
    decreases n, 1
  {
    match n
    case Empty =>
      LookupLeaf(k, v, q);
    case Leaf(path, prior) =>
      SplitLeafLookup(path, prior, k, v, q);
      LookupLeaf(path, prior, q);
    case Branch(_, _) =>
      BranchDescentLookup(n, k, v, q);
    case Extension(_, _) =>
      ExtensionDescentLookup(n, k, v, q);
  }

  /** The branch step of the round trip: one nibble is consumed, and only the
      slot it selects changes. */
  lemma {:induction false} BranchDescentLookup(n: Node, k: seq<Nibble>, v: Bytes, q: seq<Nibble>)
    requires Valid(n) && n.Branch?
    requires PutAt(n, k, v).Done?
    ensures Lookup(PutAt(n, k, v).node, q) == if q == k then Some(v) else Lookup(n, q)
    decreases n, 0
  {
    var bs := n.branches;
    var r := PutAt(n, k, v).node;
    assert |k| > 0 && r == Branch(bs[k[0] := PutAt(bs[k[0]], k[1..], v).node], n.branchValue);
    if |q| > 0 && q[0] == k[0] {
      PutAtLookup(bs[k[0]], k[1..], v, q[1..]);
      assert q == k <==> q[1..] == k[1..] by {
        assert q == [q[0]] + q[1..] && k == [k[0]] + k[1..];
      }
    }
  }

  /** The extension step of the round trip: a split when the key leaves the
      extension's path, else a descent consuming the whole path. */
  lemma {:induction false} ExtensionDescentLookup(n: Node, k: seq<Nibble>, v: Bytes, q: seq<Nibble>)
    requires Valid(n) && n.Extension?
    requires PutAt(n, k, v).Done?
    ensures Lookup(PutAt(n, k, v).node, q) == if q == k then Some(v) else Lookup(n, q)
    decreases n, 0
  {
    var path, next := n.path, n.next;
    var m := PrefixMatchedLen(path, k);
    if m < |path| {
      SplitExtensionLookup(path, next, k, v, q);
    } else {
      var child := PutAt(next, k[m..], v).node;
      assert PutAt(n, k, v).node == Extension(path, child);
      LookupExtension(path, child, q);
      LookupExtension(path, next, q);
      if path <= q {
        PutAtLookup(next, k[m..], v, q[m..]);
        assert q == k <==> q[m..] == k[m..] by {
          assert q == path + q[m..] && k == path + k[m..];
        }
      } else {
        PrefixMatchedLenFull(path, k);
      }
    }
  }

  /** Every key stored below `n` has exactly `d` nibbles left at `n`: leaves
      hold paths of that length, no branch holds a value, and no branch sits
      where a key would already be used up. Tries whose keys all have one
      byte length, as in proof_test.go, have this shape. */
  ghost predicate UniformDepth(n: Node, d: nat) {
    match n
    case Empty => true
    case Leaf(path, _) => |path| == d
    case Extension(path, next) => |path| <= d && UniformDepth(next, d - |path|)
    case Branch(bs, bv) =>
      d > 0 && bv.None? && forall i | 0 <= i < |bs| :: UniformDepth(bs[i], d - 1)
  }

  /** A shared prefix keeps a subtree uniform, one level up. */
  lemma UniformWrap(prefix: seq<Nibble>, n: Node, d: nat)
    requires |prefix| <= d && UniformDepth(n, d - |prefix|)
    ensures UniformDepth(Wrap(prefix, n), d)
  {
  }

  /** A leaf split between two keys of one length builds a uniform subtree. */
  lemma UniformSplitLeaf(path: seq<Nibble>, prior: Bytes, k: seq<Nibble>, v: Bytes)
    requires |path| == |k|
    ensures UniformDepth(SplitLeaf(path, prior, k, v), |k|)
  {
    if path != k {
      var m, b := SplitLeafShape(path, prior, k, v);
      assert forall i | 0 <= i < 16 :: UniformDepth(b.branches[i], |k| - m - 1);
    } else {
      PrefixMatchedLenSelf(path);
    }
  }

  /** An extension split below a uniform extension builds a uniform subtree. */
  lemma UniformSplitExtension(path: seq<Nibble>, next: Node, k: seq<Nibble>, v: Bytes)
    requires Valid(next)
    requires |path| <= |k| && UniformDepth(next, |k| - |path|)
    requires PrefixMatchedLen(path, k) < |path|
    ensures UniformDepth(SplitExtension(path, next, k, v), |k|)
  {
    var m, b := UniformSplitParts(path, next, k, v);
    UniformWrap(path[..m], b, |k|);
  }

  /** The split as a shared prefix over a branch uniform at the depth left. */
  lemma UniformSplitParts(path: seq<Nibble>, next: Node, k: seq<Nibble>, v: Bytes) returns (m: nat, b: Node)
    requires Valid(next)
    requires |path| <= |k| && UniformDepth(next, |k| - |path|)
    requires PrefixMatchedLen(path, k) < |path|
    ensures m <= |path| && m <= |k| && |path[..m]| == m
    ensures SplitExtension(path, next, k, v) == Wrap(path[..m], b)
    ensures UniformDepth(b, |k| - m)
  {
    m, b := SplitExtensionShape(path, next, k, v);
    UniformSplitBranch(path, next, k, v, m, b);
  }

  /** The branch an extension split builds is uniform at the depth left after
      the shared prefix. */
  lemma UniformSplitBranch(path: seq<Nibble>, next: Node, k: seq<Nibble>, v: Bytes, m: nat, b: Node)
    requires |path| <= |k| && UniformDepth(next, |k| - |path|)
    requires m < |path| && path[m] != k[m]
    requires b.Branch? && |b.branches| == 16 && b.branchValue.None?
    requires b.branches[path[m]] == Wrap(path[m + 1..], next)
    requires b.branches[k[m]] == Leaf(k[m + 1..], v)
    requires forall i | 0 <= i < 16 && i != path[m] && i != k[m] :: b.branches[i].Empty?
    ensures UniformDepth(b, |k| - m)
  {
    var d := |k| - m - 1;
    UniformWrap(path[m + 1..], next, d);
    assert UniformDepth(Leaf(k[m + 1..], v), d);
    assert forall i | 0 <= i < 16 :: UniformDepth(b.branches[i], d);
  }

  /** With keys of one length, Put never reaches either out-of-bounds index,
      and the trie keeps the uniform shape. */
  lemma {:induction false} UniformPutAt(n: Node, k: seq<Nibble>, v: Bytes)
    requires Valid(n) && UniformDepth(n, |k|)
    ensures PutAt(n, k, v).Done?
    ensures UniformDepth(PutAt(n, k, v).node, |k|)
    decreases n
  {
    match n
    case Empty =>
    case Leaf(path, prior) =>
      UniformSplitLeaf(path, prior, k, v);
    case Branch(bs, bv) =>
      UniformPutAt(bs[k[0]], k[1..], v);
      var r := PutAt(n, k, v).node;
      assert forall i | 0 <= i < 16 ::
        r.branches[i] == if i == k[0] then PutAt(bs[k[0]], k[1..], v).node else bs[i];
    case Extension(path, next) =>
      var m := PrefixMatchedLen(path, k);
      if m < |path| {
        UniformSplitExtension(path, next, k, v);
      } else {
        UniformPutAt(next, k[m..], v);
      }
  }

  /** Leaf splits build branches with at least one present slot. */
  lemma OccupiedSplitLeaf(path: seq<Nibble>, prior: Bytes, k: seq<Nibble>, v: Bytes)
    ensures BranchesOccupied(SplitLeaf(path, prior, k, v))
  {
    if path == k {
      PrefixMatchedLenSelf(path);
      return;
    }
    var m, b := SplitLeafShape(path, prior, k, v);
    var i := if m < |path| then path[m] else k[m];
    assert !b.branches[i].Empty?;
    assert forall j | 0 <= j < 16 :: BranchesOccupied(b.branches[j]);
    assert BranchesOccupied(b);
  }

  /** Extension splits build a branch holding the new leaf, and keep the old
      child's branches as they were. */
  lemma OccupiedSplitExtension(path: seq<Nibble>, next: Node, k: seq<Nibble>, v: Bytes)
    requires Valid(next) && BranchesOccupied(next)
    requires PrefixMatchedLen(path, k) < |path| && PrefixMatchedLen(path, k) < |k|
    ensures BranchesOccupied(SplitExtension(path, next, k, v))
  {
    var m, b := SplitExtensionShape(path, next, k, v);
    assert BranchesOccupied(b) by {
      assert !b.branches[k[m]].Empty?;
      assert BranchesOccupied(Wrap(path[m + 1..], next));
      assert forall j | 0 <= j < 16 :: BranchesOccupied(b.branches[j]);
    }
    assert BranchesOccupied(Wrap(path[..m], b));
  }

  /** A successful insertion keeps every branch occupied. */
  lemma {:induction false} PutAtOccupied(n: Node, k: seq<Nibble>, v: Bytes)
    requires Valid(n)
    requires PutAt(n, k, v).Done?
    ensures BranchesOccupied(n) ==> BranchesOccupied(PutAt(n, k, v).node)
    decreases n
  {
    if !BranchesOccupied(n) {
      return;
    }
    match n
    case Empty =>
    case Leaf(path, prior) =>
      OccupiedSplitLeaf(path, prior, k, v);
    case Branch(bs, bv) =>
      PutAtOccupied(bs[k[0]], k[1..], v);
      var r := PutAt(n, k, v).node;
      assert !r.branches[k[0]].Empty?;
      assert forall i | 0 <= i < 16 :: BranchesOccupied(r.branches[i]);
    case Extension(path, next) =>
      var m := PrefixMatchedLen(path, k);
      if m < |path| {
        OccupiedSplitExtension(path, next, k, v);
      } else {
        PutAtOccupied(next, k[m..], v);
      }
  }

  /** Below a present node of a trie with both shape rules some key is stored. */
  lemma {:induction false} StoredKeyBelow(n: Node) returns (q: seq<Nibble>)
    requires Valid(n) && ExtensionsProper(n) && BranchesOccupied(n) && !n.Empty?
    ensures Lookup(n, q).Some?
    decreases n
  {
    match n
    case Leaf(path, v) =>
      q := path;
      LookupLeaf(path, v, q);
    case Extension(path, next) =>
      var rest := StoredKeyBelow(next);
      q := path + rest;
      LookupExtension(path, next, q);
      assert q[|path|..] == rest;
    case Branch(bs, _) =>
      var i: Nibble :| i < |bs| && !bs[i].Empty?;
      var rest := StoredKeyBelow(bs[i]);
      q := [i] + rest;
      assert q[0] == i && q[1..] == rest;
  }

  /** Put panics only on a key that is a proper prefix of a key already
      stored: a key used up at a Branch, or ending inside an Extension's path,
      stops strictly above the keys stored below that node. */
  lemma {:induction false} PanicBelowStoredKey(n: Node, k: seq<Nibble>, v: Bytes)
    requires Valid(n) && ExtensionsProper(n) && BranchesOccupied(n)
    requires PutAt(n, k, v).Panic?
    ensures exists q :: Lookup(n, q).Some? && k < q
    decreases n
  {
    match n
    case Branch(bs, _) =>
      if |k| == 0 {
        var i: Nibble :| i < |bs| && !bs[i].Empty?;
        var rest := StoredKeyBelow(bs[i]);
        var q := [i] + rest;
        assert q[0] == i && q[1..] == rest;
        assert Lookup(n, q).Some? && k < q;
      } else {
        PanicBelowStoredKey(bs[k[0]], k[1..], v);
        var rest :| Lookup(bs[k[0]], rest).Some? && k[1..] < rest;
        var q := [k[0]] + rest;
        assert q[0] == k[0] && q[1..] == rest;
        assert k == [k[0]] + k[1..];
        assert Lookup(n, q).Some? && k < q;
      }
    case Extension(path, next) =>
      var m := PrefixMatchedLen(path, k);
      if m < |path| {
        assert k == path[..m];
        var rest := StoredKeyBelow(next);
        var q := path + rest;
        LookupExtension(path, next, q);
        assert q[|path|..] == rest;
        assert Lookup(n, q).Some? && k < q;
      } else {
        PrefixMatchedLenFull(path, k);
        PanicBelowStoredKey(next, k[m..], v);
        var rest :| Lookup(next, rest).Some? && k[m..] < rest;
        var q := path + rest;
        LookupExtension(path, next, q);
        assert q[|path|..] == rest;
        assert k == path + k[m..];
        assert Lookup(n, q).Some? && k < q;
      }
  }

  /** The cause of a panicking Put: in a trie keeping both shape rules, its
      key's nibbles are a proper prefix of a key the trie holds. */
  lemma PutPanicCause(t: Trie, key: Bytes, value: Bytes)
    requires Valid(t.root) && ExtensionsProper(t.root) && BranchesOccupied(t.root)
    requires Put(t, key, value).Panicked?
    ensures exists q :: Lookup(t.root, q).Some? && FromBytes(key) < q
  {
    PanicBelowStoredKey(t.root, FromBytes(key), value);
  }

  /** What Put can report besides success. */
  datatype PutError = EmptyKey

  /** The outcome of Put: the updated trie, a returned error, or a panic. */
  datatype PutResult = Stored(trie: Trie) | Rejected(error: PutError) | Panicked(site: PanicSite)

  /** Inserts `value` under `key`. An empty key is rejected and the trie is left
      as it was; otherwise the key's nibbles are inserted from the root. */
  function Put(t: Trie, key: Bytes, value: Bytes): (r: PutResult)
    requires Valid(t.root)
    ensures r.Rejected? <==> |key| == 0
    ensures r.Rejected? ==> r.error == EmptyKey
    ensures r.Stored? ==> Valid(r.trie.root) && !r.trie.root.Empty?
    ensures r.Stored? && ExtensionsProper(t.root) ==> ExtensionsProper(r.trie.root)
    ensures r.Stored? && BranchesOccupied(t.root) ==> BranchesOccupied(r.trie.root)
    ensures r.Stored? ==> Get(r.trie, key) == Some(value)
    ensures r.Stored? ==> forall other :: other != key ==> Get(r.trie, other) == Get(t, other)
  {
    var nibbles := FromBytes(key);
    if |nibbles| == 0 then Rejected(EmptyKey)
    else
      match PutAt(t.root, nibbles, value)
      case Panic(site) => Panicked(site)
      case Done(root) =>
        PutGetFrame(t, key, value);
        PutAtOccupied(t.root, nibbles, value);
        Stored(Trie(root))
  }

  /** The byte-key form of the round trip behind Put's contract. */
  lemma PutGetFrame(t: Trie, key: Bytes, value: Bytes)
    requires Valid(t.root)
    requires PutAt(t.root, FromBytes(key), value).Done?
    ensures var t' := Trie(PutAt(t.root, FromBytes(key), value).node);
      && Get(t', key) == Some(value)
      && forall other :: other != key ==> Get(t', other) == Get(t, other)
  {
    var t' := Trie(PutAt(t.root, FromBytes(key), value).node);
    PutAtLookup(t.root, FromBytes(key), value, FromBytes(key));
    forall other | other != key
      ensures Get(t', other) == Get(t, other)
    {
      PutAtLookup(t.root, FromBytes(key), value, FromBytes(other));
      if FromBytes(other) == FromBytes(key) {
        FromBytesInjective(other, key);
      }
    }
  }

  /** The value last written under `key` by a sequence of insertions. */
  function Latest(kvs: seq<(Bytes, Bytes)>, key: Bytes): Option<Bytes> {
    if |kvs| == 0 then None
    else if kvs[|kvs| - 1].0 == key then Some(kvs[|kvs| - 1].1)
    else Latest(kvs[..|kvs| - 1], key)
  }

  /** Puts the pairs in order, stopping at the first that does not store. */
  function PutAll(t: Trie, kvs: seq<(Bytes, Bytes)>): (r: PutResult)
    requires Valid(t.root)
    ensures r.Stored? ==> Valid(r.trie.root)
    ensures r.Stored? ==> forall key ::
      Get(r.trie, key) == if Latest(kvs, key).Some? then Latest(kvs, key) else Get(t, key)
    decreases |kvs|
  {
    if |kvs| == 0 then Stored(t)
    else
      match PutAll(t, kvs[..|kvs| - 1])
      case Stored(t1) => Put(t1, kvs[|kvs| - 1].0, kvs[|kvs| - 1].1)
      case failed => failed
  }

  /** Keys of one non-zero byte length, as proof_test.go inserts, never make
      Put fail: every insertion stores. */
  lemma {:induction false} FixedLengthPutAll(kvs: seq<(Bytes, Bytes)>, len: nat)
    requires len > 0
    requires forall i | 0 <= i < |kvs| :: |kvs[i].0| == len
    ensures PutAll(NewTrie(), kvs).Stored?
    ensures UniformDepth(PutAll(NewTrie(), kvs).trie.root, 2 * len)
    decreases |kvs|
  {
    if |kvs| > 0 {
      var init := kvs[..|kvs| - 1];
      FixedLengthPutAll(init, len);
      var t1 := PutAll(NewTrie(), init).trie;
      var (key, value) := kvs[|kvs| - 1];
      UniformPutAt(t1.root, FromBytes(key), value);
    }
  }

  /** A trie built by stored insertions from the empty trie keeps both shape
      rules, and every nibble key it answers is the nibbles of an inserted key. */
  lemma {:induction false} PutAllShape(kvs: seq<(Bytes, Bytes)>)
    requires PutAll(NewTrie(), kvs).Stored?
    ensures var root := PutAll(NewTrie(), kvs).trie.root;
      && ExtensionsProper(root) && BranchesOccupied(root)
      && forall q :: Lookup(root, q).Some? ==> exists i | 0 <= i < |kvs| :: q == FromBytes(kvs[i].0)
    decreases |kvs|
  {
    if |kvs| > 0 {
      var init := kvs[..|kvs| - 1];
      PutAllShape(init);
      var t1 := PutAll(NewTrie(), init).trie;
      var (key, value) := kvs[|kvs| - 1];
      var root := PutAll(NewTrie(), kvs).trie.root;
      assert root == PutAt(t1.root, FromBytes(key), value).node;
      forall q | Lookup(root, q).Some?
        ensures exists i | 0 <= i < |kvs| :: q == FromBytes(kvs[i].0)
      {
        PutAtLookup(t1.root, FromBytes(key), value, q);
        if q != FromBytes(key) {
          var i :| 0 <= i < |init| && q == FromBytes(init[i].0);
          assert kvs[i] == init[i];
        }
      }
    }
  }

  /** Keys of which none is a proper prefix of another, as the design
      requires, never make Put panic: inserting such non-empty keys from the
      empty trie always stores, whatever their lengths. */
  lemma {:induction false} PrefixFreePutAll(kvs: seq<(Bytes, Bytes)>)
    requires forall i | 0 <= i < |kvs| :: |kvs[i].0| > 0
    requires forall i, j | 0 <= i < |kvs| && 0 <= j < |kvs| :: !(kvs[i].0 < kvs[j].0)
    ensures PutAll(NewTrie(), kvs).Stored?
    decreases |kvs|
  {
    if |kvs| > 0 {
      var init := kvs[..|kvs| - 1];
      assert forall i | 0 <= i < |init| :: init[i] == kvs[i];
      PrefixFreePutAll(init);
      PutAllShape(init);
      var t1 := PutAll(NewTrie(), init).trie;
      var (key, value) := kvs[|kvs| - 1];
      if Put(t1, key, value).Panicked? {
        PutPanicCause(t1, key, value);
        var q :| Lookup(t1.root, q).Some? && FromBytes(key) < q;
        var i :| 0 <= i < |init| && q == FromBytes(init[i].0);
        FromBytesPrefix(key, init[i].0);
        assert false;
      }
    }
  }

  /** Keys of different lengths store when none is a proper prefix of
      another: "a", "bc", then "a" again. */
  lemma MixedLengthExample(v1: Bytes, v2: Bytes, v3: Bytes)
    ensures PutAll(NewTrie(), [([0x61], v1), ([0x62, 0x63], v2), ([0x61], v3)]).Stored?
  {
    var a: Bytes, bc: Bytes := [0x61], [0x62, 0x63];
    var kvs := [(a, v1), (bc, v2), (a, v3)];
    assert !(a < bc) by {
      assert bc[..1][0] != a[0];
    }
    assert forall i | 0 <= i < |kvs| :: kvs[i].0 == a || kvs[i].0 == bc;
    PrefixFreePutAll(kvs);
  }

  /** The first insertion into an empty trie makes the root a leaf holding the
      whole key and the value (trie_test.go). */
  lemma FirstPut(key: Bytes, value: Bytes)
    requires |key| > 0
    ensures Put(NewTrie(), key, value) == Stored(Trie(Leaf(FromBytes(key), value)))
  {
  }

  /** Inserting a leaf's own path again replaces only the value: the node
      stays a leaf with the same path. */
  lemma LeafUpdate(path: seq<Nibble>, prior: Bytes, v: Bytes)
    ensures PutAt(Leaf(path, prior), path, v) == Done(Leaf(path, v))
  {
    PrefixMatchedLenSelf(path);
  }

  /** The branch transition: an exhausted key panics; otherwise one nibble is
      consumed, the slot it selects is rewritten, and the other fifteen slots
      and the branch value stay as they were. */
  lemma BranchStep(n: Node, k: seq<Nibble>, v: Bytes)
    requires Valid(n) && n.Branch?
    ensures |k| == 0 ==> PutAt(n, k, v) == Panic(BranchKeyExhausted)
    ensures |k| > 0 ==> (PutAt(n, k, v).Done? <==> PutAt(n.branches[k[0]], k[1..], v).Done?)
    ensures |k| > 0 && PutAt(n, k, v).Done? ==>
      var r := PutAt(n, k, v).node;
      && r.Branch? && r.branchValue == n.branchValue && |r.branches| == 16
      && PutAt(n.branches[k[0]], k[1..], v) == Done(r.branches[k[0]])
      && forall i | 0 <= i < 16 && i != k[0] :: r.branches[i] == n.branches[i]
  {
  }

  /** The extension transition: a key that the path leads is descended by the
      whole path; a key that ends strictly inside the path panics; any other
      key splits the extension, which always succeeds. */
  lemma ExtensionStep(n: Node, k: seq<Nibble>, v: Bytes)
    requires Valid(n) && n.Extension?
    ensures n.path <= k ==>
      PutAt(n, k, v) == match PutAt(n.next, k[|n.path|..], v)
                        case Done(c) => Done(Extension(n.path, c))
                        case Panic(site) => Panic(site)
    ensures k < n.path ==> PutAt(n, k, v) == Panic(ExtensionKeyExhausted)
    ensures !(n.path <= k) && !(k < n.path) ==>
      PutAt(n, k, v) == Done(SplitExtension(n.path, n.next, k, v))
  {
    PrefixMatchedLenFull(n.path, k);
    PrefixMatchedLenSymmetric(n.path, k);
    PrefixMatchedLenFull(k, n.path);
  }

  /** One more pair is one more Put after the others. */
  lemma PutAllSnoc(t: Trie, kvs: seq<(Bytes, Bytes)>, key: Bytes, value: Bytes)
    requires Valid(t.root)
    ensures PutAll(t, kvs + [(key, value)]) ==
      match PutAll(t, kvs)
      case Stored(t1) => Put(t1, key, value)
      case failed => failed
  {
    assert (kvs + [(key, value)])[..|kvs|] == kvs;
  }

  /** The first out-of-bounds index, reached: keys "a", "ab", then "a" again.
      The second insertion leaves an Extension over the nibbles of "a" whose
      branch holds the first value; the third consumes the whole Extension
      and arrives at that branch with no nibble left to index. */
  lemma BranchPanicExample(v1: Bytes, v2: Bytes, v3: Bytes)
    ensures PutAll(NewTrie(), [([0x61], v1), ([0x61, 0x62], v2), ([0x61], v3)])
         == Panicked(BranchKeyExhausted)
  {
    var first := [([0x61], v1), ([0x61, 0x62], v2)];
    var root, b := BranchPanicSetup(v1, v2);
    PutAllSnoc(NewTrie(), first, [0x61], v3);
    assert first + [([0x61], v3)] == [([0x61], v1), ([0x61, 0x62], v2), ([0x61], v3)];
    var a := FromBytes([0x61]);
    assert a == [6, 1];
    ExtensionStep(root, a, v3);
    BranchStep(b, [], v3);
    assert Put(Trie(root), [0x61], v3) == Panicked(BranchKeyExhausted);
  }

  /** The trie after inserting "a" and then "ab": an Extension over the two
      nibbles of "a" leading to a branch. */
  lemma BranchPanicSetup(v1: Bytes, v2: Bytes) returns (root: Node, b: Node)
    ensures PutAll(NewTrie(), [([0x61], v1), ([0x61, 0x62], v2)]) == Stored(Trie(root))
    ensures Valid(root) && root == Extension([6, 1], b) && b.Branch? && Valid(b)
  {
    var a, ab := FromBytes([0x61]), FromBytes([0x61, 0x62]);
    assert a == [6, 1] && ab == [6, 1, 6, 2];
    PutAllSnoc(NewTrie(), [], [0x61], v1);
    PutAllSnoc(NewTrie(), [([0x61], v1)], [0x61, 0x62], v2);
    assert PutAll(NewTrie(), []) == Stored(NewTrie());
    var m;
    m, b := SplitLeafShape(a, v1, ab, v2);
    assert m == 2;
    root := Wrap(a, b);
  }

  /** The second out-of-bounds index, reached: keys "ab", "ac", then "a". The
      second insertion leaves an Extension over three nibbles; "a" has only
      two, both on that path, so the split reads past the end of the key. */
  lemma ExtensionPanicExample(v1: Bytes, v2: Bytes, v3: Bytes)
    ensures PutAll(NewTrie(), [([0x61, 0x62], v1), ([0x61, 0x63], v2), ([0x61], v3)])
         == Panicked(ExtensionKeyExhausted)
  {
    var first := [([0x61, 0x62], v1), ([0x61, 0x63], v2)];
    var root := ExtensionPanicSetup(v1, v2);
    PutAllSnoc(NewTrie(), first, [0x61], v3);
    assert first + [([0x61], v3)] == [([0x61, 0x62], v1), ([0x61, 0x63], v2), ([0x61], v3)];
    var a := FromBytes([0x61]);
    assert a == [6, 1];
    assert a < root.path;
    ExtensionStep(root, a, v3);
    assert Put(Trie(root), [0x61], v3) == Panicked(ExtensionKeyExhausted);
  }

  /** The trie after inserting "ab" and then "ac": an Extension over their
      three shared nibbles. */
  lemma ExtensionPanicSetup(v1: Bytes, v2: Bytes) returns (root: Node)
    ensures PutAll(NewTrie(), [([0x61, 0x62], v1), ([0x61, 0x63], v2)]) == Stored(Trie(root))
    ensures Valid(root) && root.Extension? && root.path == [6, 1, 6]
  {
    var ab, ac := FromBytes([0x61, 0x62]), FromBytes([0x61, 0x63]);
    assert ab == [6, 1, 6, 2] && ac == [6, 1, 6, 3];
    PutAllSnoc(NewTrie(), [], [0x61, 0x62], v1);
    PutAllSnoc(NewTrie(), [([0x61, 0x62], v1)], [0x61, 0x63], v2);
    assert PutAll(NewTrie(), []) == Stored(NewTrie());
    var m, b := SplitLeafShape(ab, v1, ac, v2);
    assert m == 3 by {
      assert ab[..3] == ac[..3];
    }
    root := Wrap(ab[..3], b);
  }
}
