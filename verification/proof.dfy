/** Proof-node collection of proof.go: the walk from the root to the node that
    terminates a key, then one write of `(Hash(n), Serialize(n))` per visited
    node into a key-value sink. */
module Proofs {
  import opened Common
  import opened Nibbles
  import opened Nodes
  import opened Tries

  /** Why no proof can be built: the walk met an absent node, a leaf whose
      path is not the rest of the key, or an extension whose path does not
      lead it; or the sink refused a write. */
  datatype ProofError =
    | NodeEmpty
    | LeafMismatch
    | ExtensionMismatch
    | Storage(cause: StorageError)

  /** The errors inmemory.go's store reports. */
  datatype StorageError = NotInitialized | KeyNotFound

  /** One `Put(key, value)` request to the sink. */
  datatype Write = Write(key: Bytes, value: Bytes)

  /** A key-value sink, seen through its answers: given the writes it has
      accepted so far and a new one, it accepts (None) or refuses with an
      error. */
  type KVWriter = (seq<Write>, Write) -> Option<StorageError>

  /** `c` hangs directly below `p`. */
  predicate ChildOf(c: Node, p: Node) {
    || (p.Extension? && p.next == c)
    || (p.Branch? && c in p.branches)
  }

  /** The value a walk ends at: a leaf's value, or a branch's value if set. */
  function TerminalValue(n: Node): Option<Bytes> {
    match n
    case Leaf(_, v) => Some(v)
    case Branch(_, bv) => bv
    case _ => None
  }

  /** The nodes the walk of proof.go visits for key nibbles `k` below `n`,
      root first. Each visited node is present, each is a child of the one
      before, and the walk ends at a leaf or at a branch. With proper
      extensions every step but the last consumes a nibble, so a path has at
      most one node more than the key has nibbles. */
  function CollectPath(n: Node, k: seq<Nibble>): (r: Result<seq<Node>, ProofError>)
    requires Valid(n)
    ensures r.Ok? ==> |r.value| > 0 && r.value[0] == n
    ensures r.Ok? ==> forall i | 0 <= i < |r.value| :: !r.value[i].Empty?
    ensures r.Ok? ==> forall i | 0 < i < |r.value| :: ChildOf(r.value[i], r.value[i - 1])
    ensures r.Ok? ==> r.value[|r.value| - 1].Leaf? || r.value[|r.value| - 1].Branch?
    ensures r.Ok? && ExtensionsProper(n) ==> |r.value| <= |k| + 1
    ensures r.Err? ==> !r.error.Storage?
    decreases n
  {
    match n
    case Empty => Err(NodeEmpty)
    case Leaf(path, _) =>
      var m := PrefixMatchedLen(k, path);
      if |path| == m && |k| == m then Ok([n]) else Err(LeafMismatch)
    case Branch(bs, _) =>
      if |k| == 0 then Ok([n])
      else
        (match CollectPath(bs[k[0]], k[1..])
         case Ok(rest) => Ok([n] + rest)
         case Err(e) => Err(e))
    case Extension(path, next) =>
      var m := PrefixMatchedLen(k, path);
      if m < |path| then Err(ExtensionMismatch)
      else
        (match CollectPath(next, k[m..])
         case Ok(rest) => Ok([n] + rest)
         case Err(e) => Err(e))
  }

  /** The walk and the lookup agree: a failed walk means the key is absent,
      and a successful one ends at the node that holds the key's value (a
      branch without a value ends a successful walk too, answering None). */
  lemma {:induction false} CollectPathLookup(n: Node, k: seq<Nibble>)
    requires Valid(n)
    ensures CollectPath(n, k).Err? ==> Lookup(n, k) == None
    ensures CollectPath(n, k).Ok? ==>
      Lookup(n, k) == TerminalValue(CollectPath(n, k).value[|CollectPath(n, k).value| - 1])
    decreases n
  {
    match n
    case Empty =>
    case Leaf(_, _) =>
    case Branch(bs, _) =>
      if |k| > 0 {
        CollectPathLookup(bs[k[0]], k[1..]);
      }
    case Extension(path, next) =>
      var m := PrefixMatchedLen(k, path);
      if m == |path| {
        CollectPathLookup(next, k[m..]);
      }
  }

  /** One step of the walk: an absent node fails; a leaf succeeds exactly
      when the rest of the key is its path; a branch is always collected and
      ends the walk when no nibble is left, otherwise one nibble picks the
      next node; an extension fails unless its path leads the key, and then
      its whole path is consumed. */
  lemma CollectPathSteps(n: Node, k: seq<Nibble>)
    requires Valid(n)
    ensures n.Empty? ==> CollectPath(n, k) == Err(NodeEmpty)
    ensures n.Leaf? ==> (CollectPath(n, k).Ok? <==> k == n.path)
    ensures n.Leaf? && k != n.path ==> CollectPath(n, k) == Err(LeafMismatch)
    ensures n.Branch? && |k| == 0 ==> CollectPath(n, k) == Ok([n])
    ensures n.Branch? && |k| > 0 ==>
      CollectPath(n, k) == match CollectPath(n.branches[k[0]], k[1..])
                           case Ok(rest) => Ok([n] + rest)
                           case Err(e) => Err(e)
    ensures n.Extension? && !(n.path <= k) ==> CollectPath(n, k) == Err(ExtensionMismatch)
    ensures n.Extension? && n.path <= k ==>
      CollectPath(n, k) == match CollectPath(n.next, k[|n.path|..])
                           case Ok(rest) => Ok([n] + rest)
                           case Err(e) => Err(e)
  {
    if n.Leaf? {
      LookupLeaf(n.path, n.value, k);
    }
    if n.Extension? {
      PrefixMatchedLenSymmetric(k, n.path);
      PrefixMatchedLenFull(n.path, k);
    }
  }

  /** The write for each collected node, in order: its hash as the key and its
      serialized form as the value. */
  function ProofWrites(nodes: seq<Node>, c: Codec): (ws: seq<Write>)
    ensures |ws| == |nodes|
    ensures forall i | 0 <= i < |nodes| :: ws[i] == Write(Hash(nodes[i], c), Serialize(nodes[i], c))
  {
    seq(|nodes|, i requires 0 <= i < |nodes| => Write(Hash(nodes[i], c), Serialize(nodes[i], c)))
  }

  /** Sends the writes in order and stops at the first refusal. The accepted
      writes are a prefix of the requested ones and stay accepted; nothing is
      rolled back. */
  method WriteAll(ws: seq<Write>, sink: KVWriter) returns (accepted: seq<Write>, err: Option<StorageError>)
    ensures accepted <= ws
    ensures forall i | 0 <= i < |accepted| :: sink(accepted[..i], accepted[i]).None?
    ensures err.None? ==> accepted == ws
    ensures err.Some? ==> |accepted| < |ws| && err == sink(accepted, ws[|accepted|])
  {
    accepted := [];
    var i := 0;
    while i < |ws|
      invariant 0 <= i <= |ws|
      invariant accepted == ws[..i]
      invariant forall j | 0 <= j < i :: sink(accepted[..j], accepted[j]).None?
    {
      var e := sink(accepted, ws[i]);
      if e.Some? {
        return accepted, e;
      }
      var grown := accepted + [ws[i]];
      assert ws[..i + 1] == grown;
      assert forall j | 0 <= j <= i :: grown[..j] == if j == i then accepted else accepted[..j];
      accepted := grown;
      i := i + 1;
    }
    return accepted, None;
  }

  /** CreateProof: walk the key's path; if the walk fails nothing is written
      and its error is returned; otherwise every visited node is written, root
      first, so the first key written is the trie's root hash, and the first
      refusal of the sink ends the operation with the earlier writes kept. */
  method CreateProof(key: Bytes, t: Trie, c: Codec, sink: KVWriter)
    returns (accepted: seq<Write>, err: Option<ProofError>)
    requires Valid(t.root)
    ensures var walk := CollectPath(t.root, FromBytes(key));
      walk.Err? ==> accepted == [] && err == Some(walk.error)
    ensures var walk := CollectPath(t.root, FromBytes(key));
      walk.Ok? ==>
        var ws := ProofWrites(walk.value, c);
        && accepted <= ws
        && (err.None? <==> accepted == ws)
        && (err.Some? ==>
              |accepted| < |ws| && sink(accepted, ws[|accepted|]).Some?
              && err == Some(Storage(sink(accepted, ws[|accepted|]).value)))
    ensures |accepted| > 0 ==> accepted[0].key == TrieHash(t, c)
    ensures forall i | 0 <= i < |accepted| :: sink(accepted[..i], accepted[i]).None?
  {
    var walk := CollectPath(t.root, FromBytes(key));
    if walk.Err? {
      return [], Some(walk.error);
    }
    var ws := ProofWrites(walk.value, c);
    var e;
    accepted, e := WriteAll(ws, sink);
    if e.Some? {
      err := Some(Storage(e.value));
    } else {
      err := None;
    }
  }

  /** Every key the trie holds has a proof path. */
  lemma StoredKeyHasPath(t: Trie, key: Bytes)
    requires Valid(t.root)
    requires Get(t, key).Some?
    ensures CollectPath(t.root, FromBytes(key)).Ok?
  {
    CollectPathLookup(t.root, FromBytes(key));
  }

  /** A key has a latest value exactly when some pair was written under it. */
  lemma {:induction false} LatestPresent(kvs: seq<(Bytes, Bytes)>, key: Bytes)
    ensures Latest(kvs, key).Some? <==> exists i | 0 <= i < |kvs| :: kvs[i].0 == key
    decreases |kvs|
  {
    if |kvs| > 0 {
      var init := kvs[..|kvs| - 1];
      LatestPresent(init, key);
      if exists i | 0 <= i < |kvs| :: kvs[i].0 == key {
        var i :| 0 <= i < |kvs| && kvs[i].0 == key;
        if i < |kvs| - 1 {
          assert init[i].0 == key;
        }
      }
      if exists i | 0 <= i < |init| :: init[i].0 == key {
        var i :| 0 <= i < |init| && init[i].0 == key;
        assert kvs[i].0 == key;
      }
    }
  }

  /** The situation of proof_test.go: after inserting pairs whose keys all
      have one non-zero length, every inserted key has a proof path, the walk
      ends at that key's latest value, and the path starts at the root. */
  lemma FixedLengthKeysHaveProofs(kvs: seq<(Bytes, Bytes)>, len: nat, i: nat)
    requires len > 0
    requires forall j | 0 <= j < |kvs| :: |kvs[j].0| == len
    requires i < |kvs|
    ensures PutAll(NewTrie(), kvs).Stored?
    ensures var t := PutAll(NewTrie(), kvs).trie;
      && CollectPath(t.root, FromBytes(kvs[i].0)).Ok?
      && var nodes := CollectPath(t.root, FromBytes(kvs[i].0)).value;
         && nodes[0] == t.root
         && TerminalValue(nodes[|nodes| - 1]) == Latest(kvs, kvs[i].0)
         && Latest(kvs, kvs[i].0).Some?
  {
    FixedLengthPutAll(kvs, len);
    var t := PutAll(NewTrie(), kvs).trie;
    var key := kvs[i].0;
    LatestPresent(kvs, key);
    assert Get(t, key) == Latest(kvs, key);
    StoredKeyHasPath(t, key);
    CollectPathLookup(t.root, FromBytes(key));
  }
}
