# Orion server: a Dafny model of its ledger

Orion is a replicated key-value ledger. Blocks of transactions come out of a Raft log, are validated against the
committed state, collected into one batch per database and committed. The state is summarised by a Merkle Patricia
trie, the transactions of a block by a Merkle tree, the chain of blocks by skip links. Clients ask for proofs, ranges
and JSON queries.

This project models the parts of that machinery that have to be right together, and proves what they promise:

- **State trie** (`TrieTree`, `TrieRefinesMap`, `TrieCanonical`, `TrieLookup`, `TrieDisplaced`, `TrieRuns`,
  `TrieNodes`, `TrieBytes`, `TrieStore`, `MPTrie`, `TrieValues`, `TrieLedger`, `StateProof`, `ProofPaths`). The
  imperative trie over its node store refines an update on trees; trees in normal form are determined by their
  entries, so the root hash tells the entries and, without deletes, forgets their history; every committed root keeps
  reading the values last written before it; after every run of blocks the trie holds the world state; proofs handed
  out are accepted.
- **Skip chain and Merkle tree** (`SkipChain`, `MerkleTree`, `MerkleBinding`). The greedy path is the shortest one and
  logarithmic; every transaction has a proof that folds to the root; a root tells its leaves, and a proof
  leads only to a hash of the tree.
- **Blocks** (`WorldState`, `DataValidation`, `SerialBlock`, `Ledger`, `Recovery`, `ConfigReplay`). Validating a block
  against the committed state and committing one batch equals executing the valid transactions one by one, each judged
  in the state it then finds; versions identify values over whole runs; crashes at any point do not show.
- **Index and queries** (`OrderEncoding`, `StateIndex`, `IndexRuns`, `IndexQuery`, `QueryCombine`, `QueryMeaning`,
  `Pagination`). The index is the image of the data after every run of blocks; the byte order of encoded integers is
  their order; plan and scan together return what the conditions mean; pages put together are one scan.
- **Replication** (`RaftApply`, `Membership`, `InFlight`). Every entry of the Raft log is applied exactly once over
  replays and restarts; Raft identifiers are never reused and quorums of successive configurations meet; proposals
  are throttled in every interleaving of the two loops.

`Basics` holds what all modules share. `dafny verify dfyconfig.toml` checks the whole project.

## Hypotheses

- Digests are any function that never returns the empty string. Nothing else is asked of SHA-256, except where a
  contract says `CollisionFree`: no two different nodes among those saved, or about to be saved, have the same hash.
  It is stated for the nodes at hand only, because the bytes of a branch leave out the positions of its children, so
  that no hash tells all nodes apart; what the bytes do tell is `BytesTell`. `NoCollisions` and `NoKeyCollisions` say the same of the strings digested for
  values, for composite keys and in Merkle trees. Where it matters that digests have one length, a contract says so.
- The JSON decoder, the quoting of JSON strings, host names, signatures, users and privileges are parameters.
- The entries of the Raft log are numbered from one, and a batch is a stretch of the log.
- LevelDB keeps keys in byte order and writes the batch of one database at once.

## Where the promise and the code differ

- **Lookups and deletes of unwritten keys.** `getPath` stops as soon as the key is used up, also in a leaf or at an
  extension. `LookupExact` and `DeleteExact` give the exact condition, `UnwrittenKeyFound` an input. The committer's
  keys are digests of one length, for which the trouble cannot arise (`SameLengthUnambiguous`).
- **Tombstones.** Splitting the leaf of a deleted key drops its tombstone, so with deletes the trie depends on the
  order in which a Go map yields the databases of a block: `HistoryIndependence`, `OrderMattersWithDeletes`. Which
  tombstone is lost can be told from the keys (`DisplacedExact`), and `Get` then returns a removed value
  (`LastValueRead`). A trie rebuilt at start-up from the last block can for that reason differ from the one whose root
  is in the header: `RebuiltExact`.
- **Deletion claims.** A node is hashed with its key nibbles and the deletion marker as parts of equal rank, so a live
  leaf whose remaining key is the nibble of the marker passes for deleted: `DeletionClaimExact`,
  `LivePassesForDeleted`.
- **Value pointers.** The pointer of a value is the digest of the key with the digest of the value appended, and no
  length between them, so two writes of keys of different lengths can share it: `PointerExact` says exactly which,
  `UpdatedValueRead` when a value is lost by it, `ValueReplaced` is an input. Keys of one length are told apart.
- **Composite keys.** The two names of a location are digested without an empty one, so `("", name)` and `(name, "")`
  share their key, and no others: `CompositeKeyExact`. Database names are not empty.
- **Proof paths.** `Verify` digests the parts of an element without their lengths, so a path may cut the bytes of a
  node anywhere: `AcceptedExact` says exactly what an accepted path shows.
- **Membership changes.** The comment of `VerifyConsensusReConfig` allows one endpoint change at a time and none
  beside a membership change. The code counts endpoint changes only beside a membership change, and there refuses them
  from the second one on. `EndpointsSlipThrough` is exactly when the two differ; `TwoEndpointsAtOnce` and
  `EndpointBesideNewMember` are inputs. The model follows the code; quorums meet all the same.
- **Crash replay of derived updates.** Index changes and the users of a configuration block are computed from the
  state found. If the crash fell after that state was written, replay finds nothing to do: `IndexReplayExact`,
  `IndexLost`, `ReplayExact`, `AdminLost`.
- **In-flight record.** A commit may come between handing a block to Raft and recording it, or another block may be
  committed under its number. Exactly then the record names a block that is already committed, and the proposer waits
  for it: `RecordExact`, `WaitsForCommittedBlock`.
- **Block numbers.** Leadership may be lost and regained while a block is prepared or handed over, which resets the
  numbering. The block still goes on, and the next number is then wrong exactly when the block is not the one that
  the reset makes due: `NumbersExact`, `NumberSkipped`.
- **Removal of this node.** `deliverEntries` returns before it updates the applied index, so the ledger can be one
  block ahead of it. `OutcomeOf` tells exactly when; `RemovalRunsAhead` is an input. A restart takes the index from the
  ledger, and nothing is applied twice (`ExactlyOnce`).

## Model

| member | source | states |
|---|---|---|
| `TrieTree.Upd` | internal/mptrie/mptrie.go:128-428 | an insertion always succeeds; whatever succeeds is a well-formed, non-empty tree (a tombstone can fail) |
| `TrieTree.UpdLeaf` | internal/mptrie/mptrie.go:187-278 | splitting or overwriting a leaf never fails for an insertion and gives a well-formed tree |
| `TrieTree.CommonPrefix` | internal/mptrie/mptrie.go:611-621 | the longest common prefix: a prefix of both keys after which they differ, unless one ends |
| `TrieRefinesMap.FindUpdate` | internal/mptrie/mptrie.go:143-428 | after an insertion every key finds what a map update gives, but for one displaced tombstone, which comes back to life |
| `TrieRefinesMap.FindTombstone` | internal/mptrie/mptrie.go:143-428 | a tombstone on a stored key changes that key only |
| `TrieRefinesMap.DisplacedIsStored` | internal/mptrie/mptrie.go:211-278 | the leaf an insertion splits belongs to another stored key, and the inserted key was not stored |
| `TrieCanonical.CanonicalRootUpdate` | internal/mptrie/mptrie.go:108-171 | an insertion keeps a trie in normal form; a tombstone does if and only if it does not end in the leaf of another key |
| `TrieCanonical.CanonicalUpdate` | internal/mptrie/mptrie.go:128-428 | the same for every subtree: no extension over a leaf or an extension, every branch parts two keys |
| `TrieDisplaced.DisplacedExact` | internal/mptrie/mptrie.go:143-428 | which leaf an update splits, on keys alone: that of the one stored key that shares the longest prefix with the new key, at least a nibble, if the new key is not stored and no other stored key shares as much |
| `TrieCanonical.CanonicalUnique` | internal/mptrie/mptrie.go:143-428 | two subtrees in normal form that answer every key alike are equal |
| `TrieCanonical.BranchesAgree` | internal/mptrie/mptrie.go:143-428 | the same for whole tries |
| `TrieLookup.LookupExact` | internal/mptrie/mptrie.go:526-578 | a lookup answers as the map does if and only if the key is not ambiguous; ambiguous is a key that is not stored, that a stored key extends, and right after which, or right before whose last nibble, stored keys part |
| `TrieLookup.LookupBelow` | internal/mptrie/mptrie.go:526-578 | the same below the root |
| `TrieLookup.SameLengthUnambiguous` | internal/blockprocessor/committer.go:301-327 | keys of one length, such as the digests the committer uses, are never ambiguous |
| `TrieRuns.DeleteExact` | internal/mptrie/mptrie.go:430-460 | a delete sets the tombstone of its key and changes nothing else if and only if the key is not ambiguous |
| `TrieRuns.PhantomDelete` | internal/mptrie/mptrie.go:369-381 | a delete that lands on the leaf of a longer key fails or loses a stored key |
| `TrieRuns.LookupRight` | internal/mptrie/mptrie.go:526-578 | a stored key is always found |
| `TrieRuns.RunRefinesMap` | internal/blockprocessor/committer.go:301-327 | every run of updates and unambiguous deletes succeeds, ends in normal form and holds the intended map, up to lost tombstones |
| `TrieRuns.SoundExact` | internal/mptrie/mptrie.go:430-460 | all deletes of a run do what map deletes do if and only if none meets an ambiguous key |
| `TrieRuns.RunEntryExact` | internal/mptrie/mptrie.go:187-428 | after any run a key has the last pointer put for it; its flag is right if and only if no later insertion, for which it was the closest key, lost its tombstone |
| `TrieRuns.HistoryIndependence` | internal/mptrie/mptrie.go:143-428 | runs that describe one map build the same trie if and only if they lost the same tombstones |
| `TrieRuns.UpdateOrderIndependence` | internal/blockprocessor/committer.go:301-327 | without deletes the order of the updates never matters |
| `TrieRuns.OrderMattersWithDeletes` | internal/blockprocessor/committer.go:301-327 | for all two keys of one length that share their first nibble: deleting one and inserting the other in the two orders of their databases gives two different tries |
| `TrieRuns.UnwrittenKeyFound` | internal/mptrie/mptrie.go:526-578 | counterexample: a key never written whose lookup does not say it is missing and whose delete damages the trie |
| `TrieRuns.DeleteKeepsForm` | internal/mptrie/mptrie.go:430-460 | an unambiguous delete keeps the normal form |
| `TrieLedger.CompositeKeyExact` | pkg/state/proof.go:88-105 | without collisions, two locations share their composite key if and only if they are one, or the name of one stands alone on the other side of the pair |
| `TrieLedger.NamesAreKeyed` | pkg/state/proof.go:88-105 | with database names that are not empty, composite keys have one length and are different |
| `TrieLedger.OrderEffect` | internal/blockprocessor/committer.go:301-327 | what the operations of a block do to a key does not depend on the order of the databases |
| `TrieLedger.RunMatches` | internal/blockprocessor/committer.go:301-327 | after every run of blocks the last value written to the trie for a location, not removed since, is the value of the world state |
| `TrieLedger.StateInTrie` | internal/blockprocessor/committer.go:301-327 | after every run of blocks, in any orders of the databases, the trie holds a live entry with the right pointer for every record, and for any other location a live entry if and only if its tombstone was lost |
| `TrieLedger.StateRead` | internal/mptrie/mptrie.go:88-106 | reading the trie gives the value in the world state if and only if the tombstone was not lost |
| `TrieLedger.RebuiltExact` | internal/blockprocessor/processor.go:232-264 | applying the same blocks again in other orders of their databases gives the same trie if and only if the same tombstones are lost |
| `TrieStore.Store.GetNode` | internal/mptrie/store/update_and_query.go:20-66 | a node is read from memory first, then from the backend, and hashes to its pointer |
| `TrieStore.Store.GetValue` | internal/mptrie/store/update_and_query.go:68-84 | values likewise |
| `TrieStore.Store.PutNode` | internal/mptrie/store/update_and_query.go:86-113 | a node is put under its hash; the store stays content addressed |
| `TrieStore.Store.PutValue` | internal/mptrie/store/update_and_query.go:115-121 | a value is put in memory only |
| `TrieStore.Store.PersistNode` | internal/mptrie/store/update_and_query.go:123-133 | marks a node that is in memory, and says whether it was |
| `TrieStore.Store.PersistValue` | internal/mptrie/store/update_and_query.go:135-145 | the same for values |
| `TrieStore.Store.CommitChanges` | internal/mptrie/store/update_and_query.go:157-182 | what is marked reaches the backend, memory is dropped, and every trie committed before stays complete |
| `TrieStore.Store.RollbackChanges` | internal/mptrie/store/update_and_query.go:184-193 | memory and marks are dropped, the backend stays |
| `MPTrie.FindCommonPrefix` | internal/mptrie/mptrie.go:611-621 | the loop finds the longest common prefix |
| `MPTrie.ConvertByteToHex` | internal/mptrie/mptrie.go:600-609 | the loop gives the nibbles of the key |
| `MPTrie.ToHexInjective` | internal/mptrie/mptrie.go:600-609 | different keys have different nibbles |
| `MPTrie.Trie.Empty` | internal/mptrie/mptrie.go:54-76 | a new trie is the empty branch, saved at once |
| `MPTrie.Trie.Start` | internal/mptrie/mptrie.go:54-76 | over an empty store nothing can collide, so a new trie can always be had |
| `MPTrie.Trie.Open` | internal/mptrie/mptrie.go:54-76 | every root ever committed can be opened again, as the tree it was committed for; an unknown root is an error; TrieValues.OpenAt says which values it has |
| `MPTrie.Trie.SaveNode` | internal/mptrie/mptrie.go:580-590 | saves the node of a tree whose parts are held; the tree is then held |
| `MPTrie.Trie.UpdateChild` | internal/mptrie/mptrie.go:128-141 | reads a child and updates it: the result is the node and pointer of the updated tree |
| `MPTrie.Trie.UpdateBranchNode` | internal/mptrie/mptrie.go:143-171 | refines the tree update on branches |
| `MPTrie.Trie.UpdateEmptyNode` | internal/mptrie/mptrie.go:173-185 | refines it on the empty node |
| `MPTrie.Trie.UpdateValueNode` | internal/mptrie/mptrie.go:187-278 | refines it on leaves: overwrite, two kinds of path split, fork |
| `MPTrie.Trie.SplitPathToValueNode` | internal/mptrie/mptrie.go:280-313 | the branch with one value and one leaf below the common prefix |
| `MPTrie.Trie.UpdateExtensionNode` | internal/mptrie/mptrie.go:315-428 | refines it on extensions, including the child error that is not looked at |
| `MPTrie.StripPrefix` | internal/mptrie/mptrie.go:549-558 | what is left of the key below an extension, if the key goes on below it |
| `MPTrie.Trie.GetPathNodes` | internal/mptrie/mptrie.go:526-578 | the walk ends as the tree lookup says, and each node of the path is hashed into the one before |
| `MPTrie.Trie.Get` | internal/mptrie/mptrie.go:88-106 | returns the stored value of a live key, nothing for a missing or deleted one, an error where the walk ends on a node without a value |
| `MPTrie.Trie.Update` | internal/mptrie/mptrie.go:108-126 | a non-empty key is inserted with the hash of key and value, and the value is stored; the trie stays valid |
| `MPTrie.Trie.ToDelete` | internal/mptrie/mptrie.go:437-451 | the value to be deleted with its pointer, nothing for a missing key, an error where the walk ends on a node without a value |
| `MPTrie.Trie.Delete` | internal/mptrie/mptrie.go:430-460 | does what the tree-level delete does, root loss included; for an unambiguous key the trie stays valid |
| `MPTrie.Trie.PersistSubtrie` | internal/mptrie/mptrie.go:477-519 | marks everything that is not durable yet, and stops where the rest already is |
| `MPTrie.Trie.Commit` | internal/mptrie/mptrie.go:462-475 | afterwards the backend alone holds the whole trie with its values, and every trie committed before it; no value leaves the backend, and each one there was stored before under the same pointer |
| `TrieValues.PreimageExact` | pkg/state/proof.go:107-120 | two writes digest the same string if and only if they agree in key and value digest, or one has an empty value and for its key the other key with the digest of the other value appended |
| `TrieValues.PointerExact` | pkg/state/proof.go:107-120 | without collisions, two writes share their pointer if and only if they are one write or stand in that relation |
| `TrieValues.OneLengthTold` | pkg/state/proof.go:107-120 | writes of keys of one length never do |
| `TrieValues.LastValueRead` | internal/mptrie/mptrie.go:88-106 | after any run of writes and removals, for any unambiguous key, Get never fails, and returns the value last written, or nothing, if and only if the tombstone of the key was not lost and no later write took the pointer of the value |
| `TrieValues.UpdatedValueRead` | internal/mptrie/mptrie.go:88-126 | for updates of arbitrary keys: a value is read back if and only if no confused write came after it |
| `TrieValues.ReadBack` | internal/mptrie/mptrie.go:88-106 | in any store that holds only values written, as commits leave it: without confused writes Get is right if and only if the tombstone was not lost |
| `TrieValues.OneLengthRead` | internal/blockprocessor/committer.go:301-327 | for keys of one length, such as those of the committer, that is always so |
| `TrieValues.ValueReplaced` | pkg/state/proof.go:107-120 | with keys of different lengths, for every digest, key and value: a second write that replaces the value of the first key without any collision |
| `TrieValues.Start` | internal/mptrie/mptrie.go:54-76 | a new trie follows the empty history |
| `TrieValues.Update` | internal/mptrie/mptrie.go:108-126 | a write is added to the history that the trie follows, across commits |
| `TrieValues.Delete` | internal/mptrie/mptrie.go:430-460 | a removal likewise |
| `TrieValues.Commit` | internal/blockprocessor/committer.go:297-299 | a commit forgets nothing, and the history up to it is kept among those committed |
| `TrieValues.Get` | internal/mptrie/mptrie.go:88-106 | across any number of commits, returns the value last written if and only if the tombstone of the key was not lost |
| `TrieValues.OpenAt` | internal/mptrie/mptrie.go:54-76 | the trie opened at the root of an earlier commit follows the history of then |
| `TrieValues.GetAt` | internal/mptrie/mptrie.go:88-106 | so every committed root reads the value last written before its commit, if and only if the tombstone was not lost then |
| `StateProof.Verify` | pkg/state/proof.go:24-70 | accepts exactly the paths that climb from the value hash to the root hash, with the marker if deletion is claimed; an empty path is an error |
| `StateProof.GetProof` | internal/mptrie/proof.go:11-36 | for every key that holds a value, with the right deletion flag, the path handed out is accepted against the current root hash |
| `StateProof.ClimbLinked` | pkg/state/proof.go:45-66 | a linked path climbs from anything in its last node to the hash of its first |
| `StateProof.DeletionClaimExact` | pkg/state/proof.go:24-70 | on a path that ends at the value, the claim that it was deleted is accepted if and only if the node has the tombstone or its remaining key is the nibble of the marker, as long as no pointer is the marker |
| `StateProof.LivePassesForDeleted` | internal/mptrie/node.go:69-81 | for every digest, every pointer and every one-byte key that ends in the nibble 1: after the update of that key alone, its proof is accepted as that of a deleted key |
| `ProofPaths.AcceptedLeads` | pkg/state/proof.go:24-70 | whatever path is accepted, each string it digests contains the digest of the one below, and the lowest the value hash, with the marker beside it for a deletion |
| `ProofPaths.ChainAccepted` | pkg/state/proof.go:24-70 | every such chain of strings is accepted as a path, cut in the right places |
| `ProofPaths.AcceptedExact` | pkg/state/proof.go:24-70 | a path of a given length is accepted against a root, without a collision there, if and only if such a chain starts at the bytes of the root |
| `StateProof.RootHashBinds` | internal/mptrie/node.go:21-81 | trees whose nodes do not collide and have the same root hash are equal |
| `StateProof.RootHashIffSameEntries` | internal/mptrie/mptrie.go:78-86 | two histories end in the same root hash if and only if they left the same entries |
| `TrieBytes.NodeString` | internal/mptrie/node.go:21-81 | what is digested for a node: key and pointer, then the marker; for a branch the pointers that are there, in order, without their positions |
| `TrieBytes.BytesTell` | internal/mptrie/node.go:21-81 | with pointers of one length, two nodes of one kind are digested from the same string if and only if they are equal or, for branches, have the same pointers in order |
| `TrieBytes.KindIsCollisionFree` | internal/mptrie/node.go:38-81 | extension nodes, or value nodes with one marker, have different hashes unless the digest collides on their strings |
| `SkipChain.CalculateSkipListLinks` | internal/blockstore/commit_and_query.go:187-205 | the loop gives the links back by the powers of two that divide the block number less one |
| `SkipChain.BlockStore.AddSkipListLinks` | internal/blockstore/commit_and_query.go:173-185 | the header gets the hashes of all linked blocks in order and is otherwise unchanged; fails if and only if one is not in the store |
| `SkipChain.BlockStore.Commit` | internal/blockstore/commit_and_query.go:31-46 | accepts exactly the next number; the store stays linked if and only if the header carries the hashes of its links |
| `SkipChain.BlockStore.LinkAndCommit` | internal/blockprocessor/processor.go:143-171 | a header linked first and completed afterwards keeps the store linked |
| `SkipChain.NoCrossing` | internal/blockstore/commit_and_query.go:187-205 | links never cross |
| `SkipChain.PassesThrough` | internal/blockstore/commit_and_query.go:187-205 | a path that starts inside a link and goes down to its target or below passes through the target |
| `SkipChain.GreedyIsPath` | internal/bcdb/ledger_query_procesor.go:230-255 | the greedy walk is a path over links |
| `SkipChain.GreedyIsOptimal` | internal/bcdb/ledger_query_procesor.go:230-255 | no path over links is shorter than the greedy one |
| `SkipChain.GreedyIsLogarithmic` | internal/bcdb/ledger_query_procesor.go:230-255 | it has at most 2(log2 d + 1) hops over a distance d |
| `SkipChain.BlockStore.FindPath` | internal/bcdb/ledger_query_procesor.go:230-255 | the path is genuine, hash-linked, ends at the start block, is shortest and logarithmic |
| `SkipChain.BlockStore.LongestLink` | internal/bcdb/ledger_query_procesor.go:237-246 | the inner loop finds the longest link that does not pass the start |
| `MerkleTree.ConcatenateCommutes` | pkg/crypto/hash.go:21-49 | the combination of two hashes does not depend on their order |
| `MerkleTree.BuildNextTreeLevel` | internal/mtree/mtree.go:35-61 | builds a tree over all leaves whose root hash is the level-by-level fold, from any non-empty level |
| `MerkleTree.PrepareAndBuildTree` | internal/mtree/mtree.go:18-33 | the same from the leaf hashes; no tree for no leaves |
| `MerkleTree.PathFolds` | internal/mtree/proof.go:21-51 | a path exists exactly for the indices of the tree, and its proof folds to the hash of the node |
| `MerkleTree.ComputeProofFromPath` | internal/mtree/proof.go:53-67 | the loop collects the leaf hash and the sibling hashes that exist |
| `MerkleTree.MakeProof` | internal/mtree/proof.go:13-19 | a proof for exactly the indices of the tree; it starts with the leaf and folds to the root |
| `MerkleTree.ProofOfTransaction` | internal/mtree/proof.go:13-67 | for every list of hashes and index: a proof that folds to the Merkle root exactly for an index in range |
| `MerkleBinding.CombineExact` | pkg/crypto/hash.go:21-49 | two pairs of hashes of one length, whose strings do not collide, have the same combination if and only if they are the same pair in either order |
| `MerkleBinding.TreeBinds` | internal/mtree/node.go:45-48 | two trees with the same hash have the same leaves, each as often, if the strings digested do not collide and no leaf is an inner hash |
| `MerkleBinding.LevelTree` | internal/mtree/mtree.go:35-61 | building levels from any non-empty level gives a tree with the root hash and the leaves of the level |
| `MerkleBinding.RootBinds` | internal/mtree/mtree.go:18-61 | two non-empty lists of leaves, of any lengths, with the same Merkle root hold the same leaves, each as often, under the same conditions |
| `MerkleBinding.ProofInTree` | internal/mtree/proof.go:53-67 | a list of hashes that folds to the hash of a tree starts at the hash of one of its nodes |
| `MerkleBinding.ProofBinds` | internal/mtree/proof.go:13-67 | every proof that folds to the Merkle root of a list starts at a hash of some level, and at a leaf unless it starts at an inner hash |
| `OrderEncoding.EncodeInt64Order` | internal/stateindex/encoding.go:16-84 | for all int64: the byte order of the encodings is the order of the numbers, and none is a prefix of another |
| `OrderEncoding.DecodeEncode` | internal/stateindex/encoding.go:86-183 | decoding inverts encoding, the minimum included |
| `OrderEncoding.HexDigits` | internal/stateindex/encoding.go:189-201 | digits are written with small letters and read with small or capital ones, and nothing else is a digit |
| `OrderEncoding.EncodeOrderPreservingVarUint64` | internal/stateindex/encoding.go:27-51 | the loop writes the order byte, the size and the significant bytes |
| `OrderEncoding.EncodeReverseOrderVarUint64` | internal/stateindex/encoding.go:58-84 | the loop writes the complement of the significant bytes |
| `OrderEncoding.DecodeInt64` | internal/stateindex/encoding.go:86-183 | panics exactly where it reads past the end, fails exactly where the head or a byte cannot be read; otherwise gives the number that is read, wrapped to 64 bits, also for heads no encoder writes |
| `OrderEncoding.BlockKeyOrder` | internal/blockstore/encoding.go:18-42 | block keys are ordered as the block numbers, and none is a prefix of another |
| `OrderEncoding.LastKeyIsHighest` | internal/blockstore/open.go:346-369 | the last key of the block index, in byte order, is that of the highest block |
| `OrderEncoding.EncodeBlockNumber` | internal/blockstore/encoding.go:18-42 | the loop writes the length and the significant bytes |
| `OrderEncoding.DecodeBlockNumber` | internal/blockstore/encoding.go:46-64 | reads back the number and the bytes used |
| `OrderEncoding.BlockKeyRoundTrip` | internal/blockstore/encoding.go:18-64 | decoding a block key gives its number and leaves what follows it |
| `IndexQuery.EntryBelowBound` | internal/stateindex/index_entries.go:118-135 | the text of a number entry lies below the text of a bound exactly as its integer does |
| `IndexQuery.ForeignEntry` | internal/stateindex/index_entries.go:118-135 | entries of another attribute or type lie outside every range of this one |
| `IndexQuery.RangeMeaning` | internal/queryexecutor/range_query_planner.go:19-93 | an entry is in the range of a plan exactly when its attribute is the one asked for and its integer is within the bounds |
| `IndexQuery.SetPlanForSingleCondition` | internal/queryexecutor/range_query_planner.go:95-176 | the range of one condition holds exactly the integers that meet it |
| `IndexQuery.SetPlanForMultipleConditions` | internal/queryexecutor/range_query_planner.go:178-201 | the range of a lower and an upper condition, in whichever order they come |
| `IndexQuery.ExcludeKeys` | internal/queryexecutor/range_query_planner.go:19-93 | the exclusions are exactly the values of the inequality, with the place to seek to |
| `IndexQuery.CreateQueryPlan` | internal/queryexecutor/range_query_planner.go:19-93 | range and exclusions together mean the condition set |
| `IndexQuery.SeekSkipsValue` | internal/queryexecutor/execute_conditions.go:187-215 | seeking past an excluded value skips all of its entries and no other |
| `IndexQuery.SkipExcluded` | internal/queryexecutor/execute_conditions.go:187-215 | the inner loop stops at the next entry that counts, also after exclusions were dropped |
| `IndexQuery.Scan` | internal/queryexecutor/execute_conditions.go:175-225 | the scan returns the keys of exactly the entries not excluded |
| `IndexQuery.Execute` | internal/queryexecutor/execute_conditions.go:151-225 | plan and scan return exactly the keys with an index entry that meets every condition |
| `WorldState.StateDB.Commit` | internal/worldstate/leveldb/commit_and_query.go:198-262 | fails if and only if a database is missing; the databases written hold the outcome of their batch, the others are untouched; the height comes last |
| `WorldState.GetApplyDB` | internal/worldstate/leveldb/commit_and_query.go:236-262 | in a batch the last write of a key counts and a delete beats every write |
| `WorldState.BatchedIsUnique` | internal/worldstate/leveldb/commit_and_query.go:198-234 | the order in which the databases are visited does not matter |
| `DataValidation.CompositeKeyInjective` | internal/txvalidation/validator.go:247-249 | composite keys of valid database names do not collide |
| `DataValidation.PendingOperations.AddWrite` | internal/txvalidation/validator.go:227-230 | the writes recorded are exactly those of a set of locations |
| `DataValidation.PendingOperations.AddDelete` | internal/txvalidation/validator.go:232-235 | the deletes likewise |
| `DataValidation.PendingOperations.ExistDelete` | internal/txvalidation/validator.go:237-240 | true exactly for the locations deleted |
| `DataValidation.PendingOperations.Exist` | internal/txvalidation/validator.go:242-245 | true exactly for the locations written or deleted |
| `DataValidation.ValidateDBName` | internal/txvalidation/data_tx_validator.go:108-133 | the four outcomes, each exactly when it applies |
| `DataValidation.ValidateFieldsInDataWrites` | internal/txvalidation/data_tx_validator.go:190-241 | valid exactly when there is no nil entry and every user in an access control exists |
| `DataValidation.ValidateFieldsInDataDeletes` | internal/txvalidation/data_tx_validator.go:243-282 | valid exactly when there is no nil entry and every key exists and is not pending for deletion |
| `DataValidation.ValidateUniqueness` | internal/txvalidation/data_tx_validator.go:284-319 | valid exactly when no key is named twice in the two lists |
| `DataValidation.ValidateACLOnDataReads` | internal/txvalidation/data_tx_validator.go:321-353 | valid exactly when each key read is open to one of the users; `PermittedExact` says what open means |
| `DataValidation.ValidateACLOnDataWrites` | internal/txvalidation/data_tx_validator.go:355-373 | valid exactly when each key written is open to the users by its policy, which `PermittedExact` spells out |
| `DataValidation.ValidateACLOnDataDeletes` | internal/txvalidation/data_tx_validator.go:375-393 | the same for deletes |
| `DataValidation.ValidateACLForWriteOrDelete` | internal/txvalidation/data_tx_validator.go:395-461 | both policies, and the access control that lets nobody write |
| `DataValidation.MvccValidation` | internal/txvalidation/data_tx_validator.go:463-510 | valid exactly when all read versions are current and nothing touched is pending; the flag tells which failed |
| `DataValidation.ValidateOps` | internal/txvalidation/data_tx_validator.go:135-188 | valid exactly when all of the above hold, and every other flag is justified |
| `DataValidation.ValidateDBOperation` | internal/txvalidation/data_tx_validator.go:39-75 | the operations on one database pass exactly when its name is proper, a signer may access it, and validateOps passes for those signers; every other flag is justified |
| `DataValidation.Validate` | internal/txvalidation/data_tx_validator.go:25-80 | valid exactly when the transaction is accepted as `AcceptedExact` spells it out, on the stored records and what is pending; every other flag is justified by one of its operations |
| `DataValidation.NameExact` | internal/worldstate/leveldb/open.go:25-27 | a valid name is a non-empty string over the character class of the pattern |
| `DataValidation.PermittedExact` | internal/txvalidation/data_tx_validator.go:321-461 | for every record read, one of the users stands with a set flag on its list of readers or of writers; for every record written or deleted, the list of writers is not empty and one of the users stands on it with a set flag, or all of it are users; a record without access control is open |
| `DataValidation.CurrentExact` | internal/txvalidation/data_tx_validator.go:463-487 | every read names block and transaction of the record it finds, or no version when there is none |
| `DataValidation.ProperExact` | internal/txvalidation/data_tx_validator.go:190-319 | no nil entry, no key named twice, access granted to existing users only, and only existing keys deleted |
| `DataValidation.UntouchedExact` | internal/txvalidation/data_tx_validator.go:488-505 | nothing read, written or deleted is pending |
| `DataValidation.AcceptedExact` | internal/txvalidation/data_tx_validator.go:25-80 | the conditions on names, lists, permissions, versions and pending keys together, for every transaction, are what the parts of the validator decide |
| `SerialBlock.RecordTx` | internal/txvalidation/validator.go:111-119 | a valid transaction adds exactly its writes and deletes to what is pending |
| `SerialBlock.ValidateBlock` | internal/txvalidation/validator.go:86-122 | every flag of a block: by the signature check, else by the committed data and what the valid transactions before it modified |
| `SerialBlock.AddDBEntriesForDataTx` | internal/blockprocessor/committer.go:329-353 | appends the entries of a transaction, per database, in order |
| `SerialBlock.ConstructDBEntries` | internal/blockprocessor/committer.go:147-180 | collects the entries of exactly the valid transactions, with block and position as version |
| `SerialBlock.ExecuteMeans` | internal/blockprocessor/committer.go:329-353 | a transaction leaves the values, version and access control it wrote, and none of the keys it deleted |
| `SerialBlock.SerialEquivalence` | internal/blockprocessor/committer.go:140-180 | committing the collected batch is executing the valid transactions one after another |
| `SerialBlock.SerialVerdict` | internal/txvalidation/data_tx_validator.go:25-80 | a transaction is valid exactly when it touches nothing modified before it in the block and would be accepted on its own in the state the valid ones before it leave |
| `SerialBlock.ModifiedOnce` | internal/txvalidation/data_tx_validator.go:488-505 | no location is modified by two valid transactions of a block, nor read after it was modified |
| `SerialBlock.JudgedIsCleanBlock` | internal/txvalidation/data_tx_validator.go:25-80 | the valid transactions of a judged block name each database and key once, have no nil entry and touch nothing modified before them |
| `Ledger.DataBlockIsSerial` | internal/blockprocessor/processor.go:143-171 | the state after a data block is its valid transactions executed in turn |
| `Ledger.AdminBlockExact` | internal/blockprocessor/committer.go:185-287 | an administration block changes a key only if it is valid and has entries for its database: a deleted key is gone, any other holds value and access control of its last write, stamped with the number of the block and position zero |
| `Ledger.OnlyNewVersions` | internal/blockprocessor/committer.go:164-179 | what a later state holds is what an earlier one held, or was written by a block in between |
| `Ledger.VersionsIdentifyValues` | internal/blockstore/commit_and_query.go:39-46 | over every run of blocks, equal versions of a key mean equal values, and a different value later has a greater block number |
| `Ledger.VersionsNeverReturn` | internal/txvalidation/data_tx_validator.go:463-487 | a value replaced or deleted never comes back under its version, also when its key is created again |
| `Recovery.BlockProcessor.ValidateAndCommit` | internal/blockprocessor/processor.go:143-171 | commits exactly the next block and panics on any other before anything is stored; block store and state stay in step, and the state is the serial execution |
| `Recovery.BlockProcessor.RecoverWorldStateDBIfNeeded` | internal/blockprocessor/processor.go:187-230 | the rule by heights, each outcome exactly when it applies; after an interrupted commit it restores the step |
| `Recovery.ReplayConverges` | internal/blockprocessor/processor.go:215-227 | writing any part of a batch again over any part of it gives what writing their union once gives |
| `Recovery.CrashesDoNotShow` | internal/blockprocessor/processor.go:187-230 | over every run of blocks whose updates their transactions determine, with crashes at any point, any number of times: recovery never halts and, when the heights agree, the data is that of a run without crashes |
| `ConfigReplay.ConstructDBEntriesForClusterAdmins` | internal/identity/db_entries.go:122-176 | exactly the new or changed administrators are written and the removed ones deleted |
| `ConfigReplay.CommitKeepsInStep` | internal/blockprocessor/committer.go:470-514 | a complete commit keeps the users marked as administrators those of the configuration |
| `ConfigReplay.ReplayExact` | internal/blockprocessor/processor.go:215-227 | replaying a configuration block converges if and only if the crash did not fall between configuration and users, or the administrators do not change |
| `ConfigReplay.AdminLost` | internal/blockprocessor/processor.go:215-227 | counterexample: an added administrator who never becomes a user |
| `StateIndex.PartialIndexEntriesForValue` | internal/stateindex/index_entries.go:193-235 | exactly the entries of the scalar fields with an indexed name and the declared type, at any depth of nested objects |
| `StateIndex.PartialsExact` | internal/stateindex/index_entries.go:193-235 | an entry is derived from a value exactly when the value has, at some depth, a field of the indexed name with a scalar of the declared type for which the entry stands |
| `StateIndex.IndexedStrings` | internal/stateindex/index_entries.go:193-235 | a string is indexed exactly when the object holds it under an attribute declared as string |
| `StateIndex.IndexedBooleans` | internal/stateindex/index_entries.go:193-235 | the same for booleans |
| `StateIndex.IndexedNumbers` | internal/stateindex/index_entries.go:193-235 | the same for numbers, in their order-preserving encoding |
| `StateIndex.ImageExact` | internal/stateindex/index_entries.go:173-191 | the image of the data holds an entry exactly when the value stored under its key decodes to an object that has it |
| `StateIndex.DecodeAndConstructIndexEntries` | internal/stateindex/index_entries.go:173-191 | those entries with the key; none for a value that is not a JSON object |
| `StateIndex.IndexEntriesForNewValues` | internal/stateindex/index_entries.go:142-153 | the entries of all values written |
| `StateIndex.IndexEntriesOfExistingValue` | internal/stateindex/index_entries.go:155-171 | the entries of the values stored under the keys; none for a missing key |
| `StateIndex.RemoveDuplicateIndexEntries` | internal/stateindex/index_entries.go:293-328 | what is in both lists is dropped from both, repetitions or not |
| `StateIndex.ConstructIndexEntries` | internal/stateindex/index_entries.go:29-115 | the entries to create and to delete for one database |
| `StateIndex.IndexAgrees` | internal/blockprocessor/committer.go:122-138 | an index that holds exactly the entries of the data still does after the commit, when no key is named twice |
| `IndexRuns.BlockKeysUnique` | internal/txvalidation/data_tx_validator.go:284-319 | in the updates of a validated block no key of a database is named twice |
| `IndexRuns.IndexAgreesOverRuns` | internal/blockprocessor/committer.go:122-138 | after every run of blocks the index holds exactly the entries of the data |
| `IndexRuns.IndexedAfterRun` | internal/blockprocessor/committer.go:122-138 | after every run of blocks an entry is in the index if and only if the value stored under its key has a field for which it stands |
| `IndexRuns.IndexReplayExact` | internal/blockprocessor/processor.go:215-227 | replay restores the agreement if and only if the crash did not fall after the data and before the index, or the block changes no entry |
| `IndexRuns.IndexLost` | internal/blockprocessor/processor.go:215-227 | for every decoder, value and entry of it: a key, created in a block that crashed before the index, that is never found through the index |
| `QueryCombine.Intersection` | internal/queryexecutor/execute_conditions.go:20-69 | filtering the smallest set gives exactly the keys in all sets; none for no sets |
| `QueryCombine.Union` | internal/queryexecutor/execute_conditions.go:81-100 | exactly the keys in some set |
| `QueryCombine.ExecuteAllConditions` | internal/queryexecutor/execute_conditions.go:107-149 | each attribute gets exactly the keys that meet its conditions |
| `QueryCombine.ExecuteAND` | internal/queryexecutor/execute_conditions.go:10-18 | exactly the keys that meet the conditions of every attribute |
| `QueryCombine.ExecuteOR` | internal/queryexecutor/execute_conditions.go:71-79 | exactly the keys that meet the conditions of some attribute |
| `QueryMeaning.MatchingIsWanted` | internal/stateindex/index_entries.go:193-235 | a key has an index entry that meets the conditions exactly when its value holds such an integer |
| `QueryMeaning.Query` | internal/queryexecutor/execute_conditions.go:151-225 | after every run of blocks a query returns exactly the keys whose current value holds an integer under the attribute that meets all conditions |
| `QueryMeaning.QueryAND` | internal/queryexecutor/execute_conditions.go:10-18 | with several attributes: exactly the keys whose current value does so for all of them |
| `QueryMeaning.QueryOR` | internal/queryexecutor/execute_conditions.go:71-79 | exactly the keys whose current value does so for one of them |
| `Pagination.GetDataRange` | internal/bcdb/worldstate_query_processor.go:133-211 | permission denied for a system database or without the privilege; otherwise the page answers the query as `PageExact` spells it out, or the error for a record that is too large |
| `Pagination.FillPage` | internal/bcdb/worldstate_query_processor.go:151-205 | the loop over the iterator gives the first page of the scan |
| `Pagination.ScanExact` | internal/worldstate/leveldb/commit_and_query.go:167-195 | the scan holds exactly the stored records from the start key on and before the end key that the user may read, where an empty key sets no bound |
| `Pagination.PageExact` | internal/bcdb/worldstate_query_processor.go:133-211 | what is returned are exactly the records wanted before the next start key, in the order of their keys, and within both limits if the size limit is below 2^63; a page is cut only where a limit is met, and the next start key is that of the first record wanted that is left |
| `Pagination.FirstPageMeans` | internal/bcdb/worldstate_query_processor.go:151-205 | a page is a non-empty prefix within both limits, it ends only at the end or where a limit is met, and the error comes exactly from a first record over the size limit |
| `Pagination.ScanFrom` | internal/worldstate/leveldb/commit_and_query.go:171-195 | a scan from the key of one of its records gives that record and what follows |
| `Pagination.PaginationComplete` | internal/bcdb/worldstate_query_processor.go:133-211 | asking page after page ends without error if and only if no readable record exceeds the size limit; the pages together are one unlimited scan, each within the limits and, but for the last, non-empty |
| `RaftApply.BlockReplicator.constructor` | internal/replication/blockreplicator.go:169-192 | a start from any ledger that is a prefix of the log is in step with it |
| `RaftApply.BlockReplicator.ProcessEntry` | internal/replication/blockreplicator.go:715-820 | one entry: its block, if it brings one, is committed unless already applied, membership changes apply in any case, and each way to stop or panic |
| `RaftApply.BlockReplicator.DeliverEntry` | internal/replication/blockreplicator.go:715-826 | one entry and the applied index after it; ledger and index get out of step exactly when the entry brings a new block and removes this node |
| `RaftApply.BlockReplicator.DeliverEntries` | internal/replication/blockreplicator.go:701-826 | a batch with a gap panics and commits nothing; otherwise the outcome is told from the batch, the ledger holds exactly the blocks the log brings up to where it ends, and the voters are those all changes of the batch make |
| `RaftApply.RemovalRunsAhead` | internal/replication/blockreplicator.go:768-826 | for every node and block: a log of one entry, which removes the node and carries the block, that ends ahead |
| `RaftApply.BlocksOnce` | internal/replication/blockreplicator.go:721-747 | every block held was brought by one entry of the log, with its index, and no two by the same entry, in the order of the log |
| `RaftApply.BlocksComplete` | internal/replication/blockreplicator.go:721-747 | no entry that brings a block is left out |
| `RaftApply.BlocksHeld` | internal/replication/blockreplicator.go:721-747 | the blocks of a log are exactly those its normal entries and its membership changes with a context bring, in order |
| `RaftApply.VotersExact` | internal/replication/blockreplicator.go:768-820 | after any changes a node votes if and only if it was added and neither removed nor made a learner since, or it voted before and stayed |
| `RaftApply.GoesExact` | internal/replication/blockreplicator.go:715-820 | an entry is passed if and only if what it brings can be read, its change is one the code knows, the queue takes its block, and it does not remove this node |
| `RaftApply.OutcomeVoters` | internal/replication/blockreplicator.go:701-826 | the voters of the outcome of a batch are those all changes up to it make |
| `RaftApply.LastIndexCovers` | internal/replication/blockreplicator.go:188-192 | the index in the last block covers the whole ledger |
| `RaftApply.ExactlyOnce` | internal/replication/blockreplicator.go:701-826 | over every run of overlapping and replayed batches with crashes and restarts at any point, the ledger holds exactly the blocks brought by a prefix of the log, each once and in order, and only grows |
| `Membership.ValidateConsensusConfig` | internal/txvalidation/config_tx_validator.go:260-340 | accepts exactly the non-empty member lists without nil, with proper fields and unique nodes, Raft identifiers and endpoints |
| `Membership.SoundExact` | internal/txvalidation/config_tx_validator.go:280-340 | a sound member list is not empty, every member has a name, a Raft identifier, a valid host and a port from 1 to 65535, and no two share a name, an identifier or an endpoint |
| `Membership.DetectPeerConfigChanges` | internal/replication/utils.go:66-104 | fails exactly when a Raft identifier changes or a new one is not above the maximum; lists the added, removed and changed members |
| `Membership.VerifyConsensusReConfig` | internal/replication/utils.go:33-64 | accepts exactly the changes with at most one member added or removed and, with one, at most one endpoint changed; the verdict is the one documented if and only if no endpoint changes slip through |
| `Membership.TwoEndpointsAtOnce` | internal/replication/utils.go:33-64 | counterexample to the comment: two endpoint changes at once are accepted |
| `Membership.EndpointBesideNewMember` | internal/replication/utils.go:33-64 | counterexample to the comment: an endpoint change beside a new member is accepted |
| `Membership.ConstructConfig` | internal/blockprocessor/committer.go:481-490 | the committed maximum is that of the old maximum and the members |
| `Membership.MaxIdBounds` | internal/blockprocessor/committer.go:481-490 | it bounds both, and is one of them |
| `Membership.RaftIdsNeverReused` | internal/replication/utils.go:66-104 | over every run of configurations, a Raft identifier once given to a node is never given to another |
| `Membership.RemovedIdsNeverReturn` | internal/replication/utils.go:66-104 | nor does it come back once its member was removed |
| `Membership.QuorumsIntersect` | internal/replication/utils.go:45-64 | every majority of one member set meets every majority of the next |
| `InFlight.Replicator.PrepareProposal` | internal/replication/blockreplicator.go:1010-1035 | only a leader that is ready numbers a block |
| `InFlight.Replicator.UpdateProposal` | internal/replication/blockreplicator.go:1041-1092 | records the proposal in 32 bits, panics on a second config block, and waits when there is too much in flight; the record still names what is outstanding unless the commit came first |
| `InFlight.Replicator.WakeUp` | internal/replication/blockreplicator.go:1078-1087 | a waiting proposer goes on exactly when there is room and no config block in flight |
| `InFlight.Replicator.SetLastCommittedBlock` | internal/replication/blockreplicator.go:1210-1236 | a commit lowers the count and clears the config block it is for; the panic exactly on another one |
| `InFlight.Replicator.ProcessLeaderChanges` | internal/replication/blockreplicator.go:513-549 | what losing and assuming leadership reset |
| `InFlight.Replicator.ProcessLeaderJustElected` | internal/replication/blockreplicator.go:495-511 | a new leader is ready once nothing is behind |
| `InFlight.Replicator.ExitEventLoop` | internal/replication/blockreplicator.go:443-450 | the end of the event loop frees a waiting proposer |
| `InFlight.InFlightSafety` | internal/replication/blockreplicator.go:870-936 | in every interleaving the count stays at most one above the maximum, the panic on a second config block is not reached, and no proposal goes on while there is too much in flight or a config block is |
| `InFlight.BehindNumbersNothing` | internal/replication/blockreplicator.go:495-549 | from assuming leadership behind its own log until it has caught up, a leader numbers no block |
| `InFlight.ReadyNumbersNext` | internal/replication/blockreplicator.go:1010-1035 | a leader that is ready prepares the number after the last one proposed |
| `InFlight.CountExact` | internal/replication/blockreplicator.go:1041-1092 | along every run the count is the greatest number of blocks recorded less blocks committed in any stretch of events since it was last cleared, as long as 32 bits hold it |
| `InFlight.ConfigExact` | internal/replication/blockreplicator.go:1041-1092 | along every run a config block is the one in flight if and only if it was recorded and since then leadership did not change and no config block was committed |
| `InFlight.RecordStep` | internal/replication/blockreplicator.go:1041-1092 | a step spoils the record of the config block in flight if and only if it records a block committed meanwhile, or commits another block under the recorded number |
| `InFlight.RecordExact` | internal/replication/blockreplicator.go:870-936 | along every run with commits in order, the record names only what is outstanding if and only if neither happened |
| `InFlight.WaitsForCommittedBlock` | internal/replication/blockreplicator.go:1041-1092 | counterexample: a run with commits in order that waits for a config block already committed |
| `InFlight.NumbersExact` | internal/replication/blockreplicator.go:1010-1092 | along every run the block numbers of a leader follow on without a gap if and only if no block is handed over or recorded that does not fit the last reset since it was prepared: at a reset before the hand-over the block before it must have been the last one committed, at a reset after it the block itself |
| `InFlight.PreparedIsDue` | internal/replication/blockreplicator.go:1010-1035 | until then every block prepared has the number that is due |
| `InFlight.NumberSkipped` | internal/replication/blockreplicator.go:1010-1092 | counterexample: a run in which block 3 is prepared while 2 is due |

## Left out

- Signature checks: the flags they give and the signers they accept are parameters of `ValidateBlock`.
- Validation of user, database and configuration transactions beyond the consensus part: it would add checks of fields only.
- Creating, dropping and re-indexing databases, and the replay of such blocks: administration blocks are taken with the entries they resulted in.
- The provenance store: its entries repeat what the updates of a block say.
- Block files, their chunks and their recovery: they rest on the positions of `os.File`; the block store is a sequence of blocks.
- Loading the last root of the state trie at start-up and comparing heights; what applying the last block again gives is `TrieLedger.RebuiltExact`.
- Snapshots, catching up and joining a cluster: a node starts from a ledger that is a prefix of the log.
- Queries on strings and booleans: the text order of JSON strings is not their order, and booleans would only repeat the numbers.
- An inequality with an empty list of values, which leaves an empty range: condition sets are taken as validation leaves them otherwise.
- Cancelling a context during a query and closing channels during shutdown, except where a closed queue refuses a block.
- HTTP, TLS, certificates, configuration files and logging.
- Recovery.CrashesDoNotShow: index databases are not among those written, and administration blocks are replayed with the entries they had; IndexRuns.IndexReplayExact and ConfigReplay.ReplayExact say when that is right.
- MerkleTree.FindPath: nodes are values here, so the sibling of a node is found through its parent and not through a pointer back to it.
- StateIndex.ConstructIndexEntries: entries are records here; that their JSON texts differ when they do is not part of it.
- TrieTree.Upd: its contract says when it succeeds; what it does to the contents is stated by TrieRefinesMap.FindUpdate and TrieRefinesMap.FindTombstone.
- TrieRuns.RunRefinesMap: a run that deletes an ambiguous key is not covered; TrieRuns.SoundExact says that exactly those runs have a delete that goes wrong.
- TrieRuns.RunEntryExact: the same runs are not covered.
- TrieRuns.HistoryIndependence: the same runs are not covered.
- InFlight.Replicator.SetLastCommittedBlock: that a committed config block is always the one recorded is not claimed, because it depends on what Raft lets another leader commit.
- InFlight.InFlightSafety: the maximum number of blocks in flight is fixed; a configuration block that changes it meanwhile is not part of it.
- Membership.ValidateConsensusConfig: observers, ticks and timeouts of the consensus configuration are not part of it.
- WorldState.StateDB.Commit: creating and dropping the databases named by a block are not part of it; the databases are fixed.
- Recovery.BlockProcessor.RecoverWorldStateDBIfNeeded: the provenance entries of the block replayed are not part of it.
- TrieValues.Get: a history with a commit between two confused writes is not covered, because which of their values a commit keeps depends on the nodes it finds changed; TrieValues.LastValueRead covers confused writes exactly, between commits.
- TrieValues.GetAt: the same histories are not covered.
- TrieValues.Delete: the removal of an ambiguous key is not covered; MPTrie.Trie.Delete says what it does.
