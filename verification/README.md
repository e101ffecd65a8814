# mptrie in Dafny

A model of the engine of the `mptrie` Go package, a Merkle-Patricia trie. The
engine has three parts:

- **Nibble codec** (`nibble.dfy`, module `Nibbles`). Splits bytes into nibbles and packs nibble pairs back into bytes. Implements the hex-prefix path encoding of Appendix C of the Ethereum Yellow Paper. Counts the common prefix of two paths, which decides every split.
- **Node model** (`node.dfy`, module `Nodes`). One `Node` datatype with the variants Empty, Leaf, Extension and Branch. Also the branch constructor and setters, and the structural `Raw` form with its "inline if the child serializes to under 32 bytes, else hash" rule. It also defines the `Serialize` and `Hash` wrappers.
- **Trie engine and proof collection**:
  - `trie.dfy` (module `Tries`): `Put` with its leaf-split, extension-split and descent transitions, the root hash, and a `Lookup` that follows the walk of `CreateProof`.
  - `proof.dfy` (module `Proofs`): the root-to-terminal walk of `CreateProof` and its writes of `(Hash(n), Serialize(n))` pairs to a key-value sink.

`common.dfy` (module `Common`) holds the byte types and the `Option`/`Result` wrappers.

`trie_fixed.dfy` (module `CorrectedPut`) defines an insertion that handles the two key-exhaustion cases Go's `Put` does not handle (see Findings).

How the Go program maps onto the model:

- **Put returns a new subtree.** Go's `Put` rewrites a mutable slot pointer as it descends. The model's `PutAt(node, nibbles, value)` returns the new subtree instead, and each level stores it into its own slot.
- **Panics are an outcome.** Go panics where it indexes past the end of the key (trie.go:84, trie.go:96). The model returns `Panic(site)` there. The model does not repair these cases: `Put` models the code as written. Put panics only on a key whose nibbles are a proper prefix of a key the trie already holds (`Tries.PanicBelowStoredKey`). So keys of any lengths, none a proper prefix of another, always store (`Tries.PrefixFreePutAll`).
- **Leaf constructor.** `NewLeafNodeFromNibbles` is the datatype constructor `Leaf(path, value)`, which stores both fields unchanged.
- **Branch slots.** Go's `[16]Node` array becomes a sequence of children. The ghost predicate `Valid` states that every branch has 16 of them.
- **Lookup is a ghost.** The source has no `Get`. The ghost `Lookup` follows the walk in proof.go:14-54 and returns the terminal value. The round-trip properties are stated with it.
- **Opaque collaborators.** Serialization (RLP), Keccak-256, `EmptyNodeRaw` and `EmptyNodeHash` come from outside the package. They are the fields of a `Codec` parameter:
  - `Serialize(n)` is taken to be `encode(Raw(n))`.
  - `ValidCodec` assumes only that digests are 32 bytes long and that a 32-byte string does not encode in under 32 bytes.
- **The proof sink.** The sink is the arrow type `KVWriter`. Given the writes it has already accepted and a new write, it either accepts the write or refuses it with a storage error.

## Model

| member | source | states |
|---|---|---|
| Nibbles.FromByte | nibble.go:12-17 | a byte splits into two nibbles, high half first, and packing the pair gives back the byte |
| Nibbles.FromBytes | nibble.go:19-27 | a key of n bytes gives 2n nibbles; pair i packs back to byte i; every element passes the (corrected) nibble test |
| Nibbles.ToBytes | nibble.go:54-65 | needs an even-length input (the loop reads `ns[i+1]`); gives `|ns|/2` bytes, byte i packing nibbles 2i and 2i+1 |
| Nibbles.BytesRoundTrip | nibble_test.go:39-47 | `ToBytes(FromBytes(bs)) == bs` for every byte string |
| Nibbles.NibblesRoundTrip | nibble.go:54-65 | `FromBytes(ToBytes(ns)) == ns` for every even-length nibble string |
| Nibbles.FromBytesInjective | nibble.go:19-27 | distinct keys have distinct nibble paths |
| Nibbles.FromBytesPrefix | nibble.go:19-27 | if one key's nibbles are a proper prefix of another's, the key is a proper prefix of the other key |
| Nibbles.ToPrefixed | nibble.go:31-52 | output length is even; marker `[1]` for odd input, `[0,0]` for even input, plus 2 on the first nibble for a leaf; the input follows unchanged |
| Nibbles.PrefixedRoundTrip | nibble.go:31-52 | decoding the hex-prefix form gives back the path and the leaf flag |
| Nibbles.PrefixedDecodeEncode | nibble.go:31-52 | every well-formed even-length encoding is the encoding of what it decodes to |
| Nibbles.ToPrefixedLeafExample | nibble_test.go:49-58 | `FromBytes([0xff]) == [15,15]` and `ToPrefixed([15,15], true) == [2,0,15,15]` |
| Nibbles.PrefixMatchedLen | nibble.go:67-77 | the count is at most both lengths; the first m nibbles agree; if m is below both lengths the nibbles at m differ |
| Nibbles.PrefixMatchedLenFull | nibble.go:67-77 | the count equals `|a|` exactly when a is a prefix of b |
| Nibbles.PrefixMatchedLenSymmetric | nibble.go:67-77 | the count does not depend on argument order (trie.go and proof.go pass them in opposite orders) |
| Nibbles.PrefixMatchedLenSelf | nibble_test.go:69-77 | a path matched against itself matches in full |
| Nibbles.PrefixMatchedLenExample | nibble_test.go:60-67 | "aac" and "aa" share exactly 4 nibbles |
| Nibbles.IsNibbleAdmitsSixteen | nibble.go:7-10 | the test as written accepts 16, whose high half is not zero |
| Nibbles.IsNibbleExact | nibble.go:7-10 | the corrected test accepts exactly the bytes whose high half is zero |
| Nibbles.IsNibbleAsWritten | nibble.go:7-10 | the test exactly as written: `0 <= n <= 16` |
| Nibbles.IsNibble | nibble.go:7-10 | the corrected test: `n < 16`, which `FromBytes` output always passes |
| Nodes.NewBranch | branch.go:10-14 | a new branch has 16 empty slots and no value |
| Nodes.SetBranch | branch.go:16-18 | only slot nb changes; the other 15 slots and the value stay the same |
| Nodes.SetValue | branch.go:20-22 | only the value changes, and `HasValue` then holds |
| Nodes.HasValue | branch.go:51-53 | a branch has a value exactly when its value is set (Go's non-nil test) |
| Nodes.Raw | leaf.go:20-24 | the structural form: a Leaf is `[hex-prefixed path with the leaf flag, value]`, an Extension `[hex-prefixed path, child reference]`, a Branch its 16 child references then its value (branch.go:24-41, see `Nodes.BranchRaw`), an absent node `EmptyNodeRaw` |
| Nodes.Serialize | leaf.go:16-18 | a node's serialized form is the encoding of its Raw form; branch.go:47-49 delegates the same way |
| Nodes.ChildRef | branch.go:26-36 | an absent slot is `EmptyNodeRaw`; a child serializing to 32 bytes or more is referenced by its hash; a shorter one by its own Raw form |
| Nodes.Hash | leaf.go:12-14 | a node's hash is 32 bytes (given the digest's contract) |
| Nodes.HashBySerialize | branch.go:43-49 | nodes with equal serialized forms have equal hashes |
| Nodes.EncodedPath | leaf.go:20-24 | the packed path has `|path|/2 + 1` bytes; its first byte's high nibble is 2 or 3 for a leaf (0 or 1 for an extension) by parity, and its low nibble is the path's first nibble when the length is odd |
| Nodes.LeafRaw | leaf.go:20-24 | a leaf's Raw form is the 2-element list `[ToBytes(ToPrefixed(path, true)), value]`, whose first byte has high nibble 2 or 3 |
| Nodes.BranchRaw | branch.go:24-41 | a branch's Raw form has exactly 17 entries: entry i is slot i's reference, an empty slot is `EmptyNodeRaw`, and entry 16 is the value |
| Nodes.ChildRefShape | branch.go:29-35 | a child serializing to 32 bytes or more is referenced by its hash (which encodes in 32 bytes or more); a shorter one is referenced by its own Raw form (which encodes in under 32) |
| Nodes.ChildRefDigest | branch.go:29-35 | a verifier that applies the same 32-byte threshold to a reference recovers exactly the child's hash |
| Tries.NewTrie | trie.go:11-13 | a new trie has an empty root |
| Tries.TrieHash | trie.go:15-21 | an empty root hashes to `EmptyNodeHash`, otherwise to the digest of the root's serialized form; always 32 bytes |
| Tries.Lookup | proof.go:14-54 | the walk of `CreateProof` as a lookup: a Leaf answers when the rest of the key equals its path; a Branch answers its value when the key is used up, else descends by one nibble; an Extension descends past its whole path when that path leads the key; anything else answers nothing |
| Tries.Get | proof.go:9-11 | a byte key's value is the lookup of its nibbles from the root |
| Tries.Wrap | trie.go:58-64 | the shared prefix is wrapped as an Extension only when non-empty, so a proper, non-empty subtree stays proper |
| Tries.SplitLeaf | trie.go:38-81 | a leaf transition builds a 16-slot subtree whose extensions all have non-empty paths |
| Tries.SplitLeafShape | trie.go:48-78 | leaf split: the branch value is the old value iff the old path is used up, the new value iff the key is used up; the leaves go to slots `path[m]` and `key[m]`, which differ, each holding the suffix after m; all other slots are empty |
| Tries.SplitLeafLookup | trie.go:38-81 | after a leaf update or split, the key answers the new value, the old path the old value, and any other key nothing |
| Tries.SplitExtension | trie.go:94-116 | an extension split builds a 16-slot subtree and keeps extension paths non-empty |
| Tries.SplitExtensionShape | trie.go:94-116 | extension split: a branch without a value; the slot `path[m]` holds the old child, directly if the path's remainder is empty, else under a new Extension over that remainder; the slot `key[m]` holds a leaf for the key's remainder |
| Tries.SplitExtensionLookup | trie.go:94-116 | after an extension split, the key answers the new value and every other key answers as before |
| Tries.PutAt | trie.go:31-122 | a successful insertion keeps every branch at 16 slots, never leaves the slot empty, and never creates an Extension with an empty path or an absent child |
| Tries.PutAtLookup | trie.go:23-123 | after a successful insertion, the key answers the new value and every other key answers what it answered before |
| Tries.BranchDescentLookup | trie.go:83-89 | the branch step of that round trip: only the slot selected by the consumed nibble changes |
| Tries.ExtensionDescentLookup | trie.go:91-121 | the extension step of that round trip: a split, or a descent past the whole path |
| Tries.LookupExtension | proof.go:42-52 | lookup at an Extension fails unless its path leads the key, and then continues with the whole path consumed |
| Tries.LookupLeaf | proof.go:19-27 | lookup at a Leaf succeeds exactly when the rest of the key equals its path |
| Tries.UniformPutAt | trie.go:83-96 | when all keys have one length, Put reaches neither out-of-bounds index and the trie keeps that uniform shape |
| Tries.OccupiedSplitLeaf | trie.go:48-78 | a leaf split's branch holds at least one leaf, since the key and the old path cannot both be used up |
| Tries.OccupiedSplitExtension | trie.go:98-107 | an extension split's branch holds the new leaf and keeps the old child's branches occupied |
| Tries.PutAtOccupied | trie.go:31-122 | a successful insertion keeps at least one present slot in every branch |
| Tries.PanicBelowStoredKey | trie.go:83-96 | in a trie whose extensions are proper and whose branches are occupied, if the insertion panics then its key is a proper prefix of a key the trie answers |
| Tries.PutPanicCause | trie.go:23-123 | the same at the level of Put: a panicking key's nibbles are a proper prefix of a key the trie holds |
| Tries.PutAllShape | trie.go:23-123 | a trie built by stored insertions from empty keeps both shape rules, and every key it answers is the nibbles of an inserted key |
| Tries.PrefixFreePutAll | trie.go:83-96 | non-empty keys of any lengths, none a proper prefix of another, always store and never panic |
| Tries.MixedLengthExample | trie.go:23-123 | "a", "bc", then "a" again all store |
| Tries.Put | trie.go:23-123 | an empty key, and only an empty key, is rejected with `EmptyKey` (no new trie); a stored insertion answers the value under the key and leaves every other key's answer unchanged; it keeps extensions proper and branches occupied |
| Tries.PutGetFrame | trie.go:23-123 | the same round trip and frame stated on byte keys |
| Tries.PutAll | proof_test.go:52-61 | after a run of stored insertions each key answers its most recent value, and keys never written answer as before |
| Tries.FixedLengthPutAll | proof_test.go:52-61 | inserting keys that all have one non-zero byte length always stores |
| Tries.FirstPut | trie_test.go:9-23 | the first insertion into an empty trie makes the root a Leaf holding `FromBytes(key)` and the value |
| Tries.LeafUpdate | trie.go:42-46 | re-inserting a leaf's own path keeps it a Leaf with the same path and the new value |
| Tries.BranchStep | trie.go:83-89 | at a Branch an exhausted key panics; otherwise one nibble is consumed, and only that slot is rewritten while the other 15 slots and the value stay |
| Tries.ExtensionStep | trie.go:91-121 | at an Extension a key its path leads descends past exactly `|path|` nibbles; a key that is a proper prefix of the path panics; any other key splits the extension |
| Tries.BranchPanicExample | trie.go:83-86 | inserting "a", "ab", then "a" panics at the branch index |
| Tries.ExtensionPanicExample | trie.go:94-96 | inserting "ab", "ac", then "a" panics at the extension split's key index |
| Proofs.CollectPath | proof.go:14-54 | a successful walk starts at the root, visits only present nodes, each a child of the one before, and ends at a Leaf or a Branch; with proper extensions it has at most one node more than the key has nibbles; it never fails with a storage error |
| Proofs.CollectPathSteps | proof.go:14-54 | an absent node fails; a Leaf succeeds iff the rest of the key equals its path; a Branch is always collected, ending the walk when no nibble is left, else consuming one; an Extension fails unless its path leads the key, else consumes `|path|` nibbles |
| Proofs.CollectPathLookup | proof.go:14-54 | a failed walk means the key is absent; a successful walk ends at the node holding the key's value |
| Proofs.ProofWrites | proof.go:56-60 | one `(Hash(n), Serialize(n))` write per collected node, in path order |
| Proofs.WriteAll | proof.go:56-60 | writes go out in order and stop at the first refusal; the accepted writes are a prefix of the request and are not rolled back |
| Proofs.CreateProof | proof.go:9-63 | nothing is written unless the walk succeeds; on success the sink receives one write per collected node, root first, keyed first by the trie's root hash; the first sink error ends the call and earlier writes stay |
| Proofs.StoredKeyHasPath | proof.go:14-54 | every key the trie holds has a proof path |
| Proofs.FixedLengthKeysHaveProofs | proof_test.go:48-68 | after inserting fixed-length keys, every inserted key has a proof path from the root, ending at that key's latest value |
| CorrectedPut.SplitExtensionAtEnd | trie.go:94-116 | the split for a key that ends inside an extension's path keeps 16 slots and non-empty extension paths |
| CorrectedPut.PutAtFixed | trie.go:23-123 | the corrected insertion is total, keeps 16 slots, and keeps extension paths non-empty |
| CorrectedPut.PutAtFixedAgrees | trie.go:23-123 | wherever the code as written succeeds, the corrected insertion builds the same trie |
| CorrectedPut.SplitExtensionAtEndLookup | trie.go:94-116 | after that split, the key answers its value and every other key answers as before |
| CorrectedPut.PutAtFixedLookup | trie.go:23-123 | for every key, with no hypothesis on the other keys: the key answers the value and every other key answers as before |
| CorrectedPut.FixedBranchLookup | trie.go:83-89 | the branch step of the corrected round trip, including a key that ends at the branch |
| CorrectedPut.FixedExtensionLookup | trie.go:91-121 | the extension step of the corrected round trip, including a key that ends inside the path |

## Left out

- inmemory.go (the mutex-guarded map store): its substance is locking and plumbing. `Delete`, `Has` and `Get` are not modelled. `Put` is abstracted as the `KVWriter` answer function.
- storage.go: interface declarations only. Its `KVReader.Has` returns only an error, which does not match `InMemoryStorage.Has`; nothing in the engine uses it.
- RLP serialization and Keccak-256 are not modelled. They are the opaque fields of `Codec`:
  - The package-level `Serialize` is declared elsewhere in the package and is not modelled from its definition. The model takes `Serialize(n) = encode(Raw(n))`.
  - Collision resistance is not assumed. So "a one-key trie's hash differs from the empty-trie hash" is not stated.
- `ExtensionNode` and `NewExtensionNode` are declared elsewhere in the package and are not modelled from their definitions. `Extension(path, next)` follows their uses in trie.go and proof.go. Its Raw form applies the branch's embed-or-hash rule to its child.
- `fmt.Println` in `ToBytes` (console output).
- The commented-out `VerifyProof` and `ErrWhileProof`: not live code.
- Go distinguishes a nil slice from an empty one:
  - The model stores every value passed to `Put` as present. In Go, `Put(key, nil)` at a branch would leave `HasValue` false.
  - An unset branch value renders in Raw as the empty string, as RLP renders nil.
- Nibbles.ToBytes: inputs are nibbles below 16. Go's `Nibble` is a byte, and `ns[i]<<4` would wrap to 8 bits for larger values, but no caller passes them.
- In-place mutation and pointer aliasing of branch nodes: each node has a single owning slot, so the pure model matches. Concurrency is also left out: the engine is single-threaded.
- Tries.PanicBelowStoredKey: states one direction only. A key that is a proper prefix of a stored key does not always panic: at a Leaf it becomes the new branch's value. So no converse is stated.
- Order independence of the root hash across insertion orders (a property of the design, not of any function) is not proved.

## Findings

| source | as written | input that shows it | evidently intended | confidence | as-written member | corrected member |
|---|---|---|---|---|---|---|
| nibble.go:7-10 | `IsNibble` accepts `n <= 16` | the byte 16 | accept only 0..15 | high; not executed | Nibbles.IsNibbleAdmitsSixteen | Nibbles.IsNibbleExact |
| trie.go:83-86 | the branch step reads `nibbles[0]` even when the key is used up | Put "a", then "ab", then "a" | set the branch's value | high; not executed | Tries.BranchPanicExample | CorrectedPut.PutAtFixedLookup |
| trie.go:94-96 | the extension split reads `nibbles[matched]` when the key is a proper prefix of the path | Put "ab", then "ac", then "a" | split with the value at the new branch | high; not executed | Tries.ExtensionPanicExample | CorrectedPut.PutAtFixedLookup |

`Tries.Put` keeps the behaviour as written, with the panics as explicit outcomes. `CorrectedPut.PutAtFixedAgrees` shows that the corrected insertion differs from it only where the code as written panics. `Tries.UniformPutAt` shows that neither panic is reachable when all keys have one length.
