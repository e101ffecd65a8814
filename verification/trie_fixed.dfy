/** Insertion with the two out-of-bounds cases of trie.go handled as the
    design evidently intends: a key that ends at an existing branch sets the
    branch's value, and a key that ends strictly inside an extension's path
    splits the extension with the value at the new branch. Everything else is
    the transition `Tries.PutAt` makes. */
module CorrectedPut {
  import opened Common
  import opened Nibbles
  import opened Nodes
  import opened Tries

  /** The split for a key that is a proper prefix of an extension's path: the
      new branch sits where the key ends, holds the value, and continues to the
      old child through the divergent nibble of the path. */
  function SplitExtensionAtEnd(path: seq<Nibble>, next: Node, k: seq<Nibble>, v: Bytes): (r: Node)
    requires k < path
    ensures Valid(next) ==> Valid(r)
    ensures ExtensionsProper(next) && !next.Empty? ==> ExtensionsProper(r) && !r.Empty?
  {
    var m := |k|;
    var b := SetBranch(SetValue(NewBranch(), v), path[m], Wrap(path[m + 1..], next));
    assert forall i | 0 <= i < 16 && i != path[m] :: b.branches[i] == Empty;
    assert ExtensionsProper(next) && !next.Empty? ==> ExtensionsProper(b) by {
      if ExtensionsProper(next) && !next.Empty? {
        assert ExtensionsProper(Wrap(path[m + 1..], next));
      }
    }
    Wrap(path[..m], b)
  }

  /** Insertion that never indexes past the end of the key. */
  function PutAtFixed(n: Node, k: seq<Nibble>, v: Bytes): (r: Node)
    requires Valid(n)
    ensures Valid(r) && !r.Empty?
    ensures ExtensionsProper(n) ==> ExtensionsProper(r)
    decreases n
  {
    match n
    case Empty => Leaf(k, v)
    case Leaf(path, prior) => SplitLeaf(path, prior, k, v)
    case Branch(bs, bv) =>
      if |k| == 0 then SetValue(n, v)
      else Branch(bs[k[0] := PutAtFixed(bs[k[0]], k[1..], v)], bv)
    case Extension(path, next) =>
      var m := PrefixMatchedLen(path, k);
      if m < |path| then
        if m == |k| then
          PrefixMatchedLenFull(k, path);
          PrefixMatchedLenSymmetric(path, k);
          SplitExtensionAtEnd(path, next, k, v)
        else SplitExtension(path, next, k, v)
      else Extension(path, PutAtFixed(next, k[m..], v))
  }

  /** Wherever the code as written succeeds, the corrected insertion builds
      the same trie. */
  lemma {:induction false} PutAtFixedAgrees(n: Node, k: seq<Nibble>, v: Bytes)
    requires Valid(n)
    requires PutAt(n, k, v).Done?
    ensures PutAtFixed(n, k, v) == PutAt(n, k, v).node
    decreases n
  {
    match n
    case Empty =>
    case Leaf(_, _) =>
    case Branch(bs, _) =>
      PutAtFixedAgrees(bs[k[0]], k[1..], v);
    case Extension(path, next) =>
      var m := PrefixMatchedLen(path, k);
      if m == |path| {
        PutAtFixedAgrees(next, k[m..], v);
      }
  }

  /** After a split at the key's end, the key answers the new value and every
      other key answers as it did before. */
  lemma SplitExtensionAtEndLookup(path: seq<Nibble>, next: Node, k: seq<Nibble>, v: Bytes, q: seq<Nibble>)
    requires Valid(next)
    requires k < path
    ensures Lookup(SplitExtensionAtEnd(path, next, k, v), q)
         == if q == k then Some(v) else Lookup(Extension(path, next), q)
  {
    var m := |k|;
    var b := SetBranch(SetValue(NewBranch(), v), path[m], Wrap(path[m + 1..], next));
    assert forall i | 0 <= i < 16 && i != path[m] :: b.branches[i] == Empty;
    assert Valid(b);
    assert k == path[..m];
    LookupWrap(path[..m], b, q);
    LookupExtension(path, next, q);
    if !(path[..m] <= q) {
      return;
    }
    if |q| == m {
      assert q == k;
      return;
    }
    assert q != k;
    var i := q[m];
    assert Lookup(b, q[m..]) == Lookup(b.branches[i], q[m + 1..]);
    if i == path[m] {
      LookupWrap(path[m + 1..], next, q[m + 1..]);
      PrefixStep(path, m, q);
    } else {
      assert !(path <= q) by { assert q[m] != path[m]; }
    }
  }

  /** The round trip of the corrected insertion holds for every key: the key
      inserted answers its value and every other key answers what it answered
      before, with no condition on how keys relate to each other. */
  lemma {:induction false} PutAtFixedLookup(n: Node, k: seq<Nibble>, v: Bytes, q: seq<Nibble>)
    requires Valid(n)
    ensures Lookup(PutAtFixed(n, k, v), q) == if q == k then Some(v) else Lookup(n, q)
    decreases n, 1
  {
    match n
    case Empty =>
      LookupLeaf(k, v, q);
    case Leaf(path, prior) =>
      SplitLeafLookup(path, prior, k, v, q);
      LookupLeaf(path, prior, q);
    case Branch(_, _) =>
      FixedBranchLookup(n, k, v, q);
    case Extension(_, _) =>
      FixedExtensionLookup(n, k, v, q);
  }

  /** The branch step of the corrected round trip. */
  lemma {:induction false} FixedBranchLookup(n: Node, k: seq<Nibble>, v: Bytes, q: seq<Nibble>)
    requires Valid(n) && n.Branch?
    ensures Lookup(PutAtFixed(n, k, v), q) == if q == k then Some(v) else Lookup(n, q)
    decreases n, 0
  {
    var bs := n.branches;
    if |k| == 0 {
      return;
    }
    if |q| > 0 && q[0] == k[0] {
      PutAtFixedLookup(bs[k[0]], k[1..], v, q[1..]);
      assert q == k <==> q[1..] == k[1..] by {
        assert q == [q[0]] + q[1..] && k == [k[0]] + k[1..];
      }
    }
  }

  /** The extension step of the corrected round trip. */
  lemma {:induction false} FixedExtensionLookup(n: Node, k: seq<Nibble>, v: Bytes, q: seq<Nibble>)
    requires Valid(n) && n.Extension?
    ensures Lookup(PutAtFixed(n, k, v), q) == if q == k then Some(v) else Lookup(n, q)
    decreases n, 0
  {
    var path, next := n.path, n.next;
    var m := PrefixMatchedLen(path, k);
    if m < |path| {
      if m == |k| {
        PrefixMatchedLenFull(k, path);
        PrefixMatchedLenSymmetric(path, k);
        SplitExtensionAtEndLookup(path, next, k, v, q);
      } else {
        SplitExtensionLookup(path, next, k, v, q);
      }
    } else {
      var child := PutAtFixed(next, k[m..], v);
      LookupExtension(path, child, q);
      LookupExtension(path, next, q);
      if path <= q {
        PutAtFixedLookup(next, k[m..], v, q[m..]);
        assert q == k <==> q[m..] == k[m..] by {
          assert q == path + q[m..] && k == path + k[m..];
        }
      } else {
        PrefixMatchedLenFull(path, k);
      }
    }
  }
}
