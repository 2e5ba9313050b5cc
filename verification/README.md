# Verified model of the pocket-core state storage

This project models the parts of pocket-core that decide what its state is, and proves what they promise:

- the versioned IAVL tree (`store/iavl`): a path-copying AVL tree whose versions are frozen into a node database, with
  orphan lifetimes that drive pruning, and rollback;
- Merkle range proofs over that tree: the prover, which builds a compressed proof from one traversal, and the recursive
  verifier;
- the write-back cache store (`store/cachekv`) and prefix stores (`store/prefix`), nested to any depth;
- coin sets and fixed-point decimals (`types/coin.go`, `types/decimal.go`).

## How it is modelled

Keys and values are byte strings under the order of `bytes.Compare`. A tree node is a value that carries its version,
height, size, key and whether it has been persisted; children that the source holds only by hash are the nodes those
hashes denote. Hashing is a free constructor over exactly the fields that `writeHashBytes` writes: leaves and inner nodes
share it, and an inner node's key is not among the fields. The database holds a record per hash, which includes that key.

The main result about the tree is a refinement (`Runs.RunNewRefines`): whatever sequence of operations is run on a new
tree, it answers like a working map and one plain map per saved version, in which each value carries the version at which
it was set. Its invariant ties the stored nodes to the surviving versions (`Runs.PruningExact`): nothing needed is lost and
nothing leaks. What a single Set or Remove does to the tree, and so to its root hash, is fixed by a textbook AVL tree
(`AvlReference.SetIsInsert`, `AvlReference.RemoveIsDelete`) and by which nodes are new and which are shared
(`Sharing.SetKeeps`, `Sharing.RemoveKeeps`). The state machine of
`VersionedTree.dfy` is what the objects `MutableTree` and `NodeDB` are proved against, batch, cache and loops included.

Range proofs are sound (`ProofVerify.VerifySound`) for well-formed proofs, that is, proofs whose path nodes have positive
height and exactly one of the two hashes, and whose inner paths carry only right hashes, which is the form the prover
emits. Which answers verify, and which of them hold exactly the pairs asked for, depends on whether `cpIncr` steps from a
key to the next; the conditions are exact (`RangeWalk.RangeVerifiesIff`, `RangeCondition.RangeExactIff`), and fixed-width
keys that are not all 0xFF always meet them (`RangeComplete.FixedWidthSteppable`, `KeyProofs.GetWithProofComplete`).

A cache store stands for one plain map: its parent's map overlaid with pending writes. Every operation is stated in terms
of that map, and the parent is again such a store or a plain one, so the statements hold at any depth as long as nothing
else writes the parent. An iterator is described by the entries it has yet to yield.

Eight places where the code does not do what one would expect are kept as they are, each with an example and the exact
condition: rollback to target 0 (`Runs.OverwriteSoundIff`), deleting neighbouring versions in one batch
(`NodeStore.DeletedPrunedIff`), ranges over keys that `cpIncr` does not step through (`RangeCondition.RangeExactIff`),
proofs of absence next to keys of another width (`RangeWalk.AbsenceProvedIff`), `Sub` and `IsAllGTE` on coin sets with
short denominations behind the first (`CoinValidity.SubValidIff`, `CoinValidity.AllGTEPanicsIff`), double rounding in
`Quo` (`Decimal.QuoNearestIff`), and the second sign that `NewDecFromStr` accepts (`DecimalForm.DocumentedIff`). The
documentation of the coin sets and of `NewDecFromStr` says otherwise; the model follows the code.

`dafny verify dfyconfig.toml` checks the whole project.

## Model

| member | source | states |
|---|---|---|
| `Runs.RunNewRefines` | store/iavl/mutable_tree.go:101-543 | Every run of Set, Remove, Rollback, SaveVersion, DeleteVersion, LoadVersionForOverwriting (any target but 0) and reopening the database, from an empty database, returns exactly what a machine of plain maps (a working map and one map per saved version) returns, and stands for the same maps afterwards, with the version at which each value was set. |
| `Runs.StepRefines` | store/iavl/mutable_tree.go:101-543 | The simulation step for each of the seven operations, from any state that satisfies the invariant; Set stamps its key with the working version, and nothing else changes a stamp. |
| `Runs.PruningExact` | store/iavl/nodedb.go:269-321 | After every run the stored nodes are exactly those reachable from the roots of surviving versions, and each is reachable in precisely the surviving versions from its own version to the end of its orphan entry. |
| `Runs.OrphansNeverExpire` | store/iavl/nodedb.go:281-287 | After every run no pending orphan starts after the version it would be saved to, so the "expires before it comes alive" panic is unreachable. |
| `Runs.SavedVersionsImmutable` | store/iavl/mutable_tree.go:383-427 | For every later run that neither deletes nor rolls back past a version, every read of that version gives what it gave before. |
| `Runs.GetVersionedReads` | store/iavl/mutable_tree.go:416-427 | GetVersioned returns the value of the map that was saved with the number of its smaller keys, and (-1, absent) for versions that do not exist. |
| `Runs.RollbackExact` | store/iavl/mutable_tree.go:356-379 | LoadVersionForOverwriting(t) for a saved t keeps exactly the nodes dated up to t and only orphan entries that end before t, restores the pruning invariant with latest version t, and leaves every read of a remaining version unchanged. |
| `Runs.OverwriteZeroBreaks` | store/iavl/mutable_tree.go:356-379 | With target 0 on a saved tree the latest tree is loaded and then every stored node and every version is deleted, which breaks the invariant. |
| `Runs.OverwriteSoundIff` | store/iavl/mutable_tree.go:356-379 | LoadVersionForOverwriting keeps the invariant if and only if the target is not 0 or nothing was ever saved. |
| `Runs.SaveIsFresh` | store/iavl/mutable_tree.go:431-462 | The version about to be saved never exists already, so the branch that compares with an earlier save is not entered. |
| `Runs.WorkingLoadable` | store/iavl/mutable_tree.go:431-485 | Whatever the working tree still shares with saved versions is in the database under its own record. |
| `Runs.HeightsFit` | store/iavl/node.go:420-427 | Over every run, a working tree whose size fits int64 has a height of at most 125 and a size field that counts its leaves. |
| `VersionedTree.SetInv` | store/iavl/mutable_tree.go:101-120 | Set keeps the invariant: stored nodes pruned exactly, saved versions readable, and every node of the last saved tree either still in the working tree or recorded as an orphan, never both. |
| `VersionedTree.RemoveInv` | store/iavl/mutable_tree.go:174-198 | Remove keeps the invariant. |
| `VersionedTree.RollbackInv` | store/iavl/mutable_tree.go:405-412 | Rollback keeps the invariant. |
| `VersionedTree.SaveInv` | store/iavl/mutable_tree.go:431-485 | SaveVersion keeps the invariant, the new version reads back as the working tree marked persisted, and older versions read back unchanged. |
| `VersionedTree.DeleteInv` | store/iavl/mutable_tree.go:487-543 | DeleteVersion keeps the invariant; it succeeds if and only if the version exists and is not the latest, and then exactly that version is gone and all others read as before; a refusal changes nothing. |
| `VersionedTree.DeleteTogetherInv` | store/iavl/mutable_tree.go:508-526 | DeleteVersions deletes all versions or, if one of them does not exist or is the latest, none; the invariant is kept if and only if they are separate in that sense, and all other versions read as before in any case. |
| `VersionedTree.LoadInv` | store/iavl/mutable_tree.go:356-379 | LoadVersionForOverwriting keeps the invariant for every target but 0, including targets that do not exist, and every version that is left reads as before. |
| `VersionedTree.TruncatePruned` | store/iavl/nodedb.go:189-264 | Dropping the versions above a saved one leaves exactly those up to it, pruned exactly for what remains, and each remaining tree reads back as before. |
| `VersionedTree.ReopenIsRollback` | store/iavl/mutable_tree.go:312-352 | Opening the database of any state that satisfies the invariant and loading its latest version gives that state rolled back: everything saved, and nothing else. |
| `NodeStore.Previous` | store/iavl/nodedb.go:352-370 | The greatest version below a given one, or 0. |
| `NodeStore.PrunedExact` | store/iavl/nodedb.go:269-321 | Under the pruning invariant a node is stored if and only if some surviving root reaches it. |
| `NodeStore.SavePruned` | store/iavl/nodedb.go:269-287 | Saving the working tree together with its orphans, which then end at the previous surviving version, keeps the pruning invariant. |
| `NodeStore.DeletePruned` | store/iavl/nodedb.go:291-321 | Deleting one version, by shortening lifetimes that end there to its predecessor or deleting the node when none is left, keeps the pruning invariant. |
| `NodeStore.DeletedPrunedIff` | store/iavl/mutable_tree.go:508-526 | Deleting several versions in one batch keeps pruning exact if and only if no lifetime is moved back to a version that is deleted in the same batch. |
| `NodeStore.StuckStays` | store/iavl/mutable_tree.go:508-526 | Otherwise the node of such a lifetime stays, whatever versions are deleted later. |
| `NodeStore.TogetherLeaks` | store/iavl/mutable_tree.go:508-526 | A store of four versions in which a leaf of the first three outlives them: 2 and 3 are deleted together, then 1. |
| `NodeStore.TruncatedPruned` | store/iavl/nodedb.go:189-237 | Deleting all versions from one on keeps the pruning invariant with the version before it as the latest. |
| `NodeStore.TruncatedNodes` | store/iavl/nodedb.go:189-264 | The two deletions, of the latest tree's newer nodes and of orphans that started later, together remove exactly the nodes dated after the target. |
| `NodeStore.OrphansLive` | store/iavl/nodedb.go:269-287 | A pending orphan dates from a version no later than the one it is saved to, because the last saved tree reached it. |
| `NodeStore.WorkingReach` | store/iavl/mutable_tree.go:630-641 | Old nodes are reachable from the working tree exactly if the last saved tree reaches them and they are not recorded as orphans. |
| `Persistence.LoadClosed` | store/iavl/nodedb.go:68-102 | A tree all of whose hashes are stored reads back node for node as it was saved. |
| `Persistence.RecordOfHash` | store/iavl/node.go:282-403 | A well-formed node's stored record is determined by its hash, although the hash leaves out the routing key. |
| `Persistence.MarkPersistedKeeps` | store/iavl/nodedb.go:153-172 | Saving a branch marks every node persisted and changes neither hash, contents nor shape. |
| `Persistence.NewRecordsDomain` | store/iavl/nodedb.go:153-172 | The records a save writes are those of exactly the reachable nodes that carry the new version. |
| `Persistence.ReachDisjoint` | store/iavl/node.go:282-325 | No hash occurs in both subtrees of a node, or below itself, so hashes identify places in a tree. |
| `MutableTree.MutableTree.constructor` | store/iavl/mutable_tree.go:33-49 | A new tree over any database of canonical records has nothing loaded; over an empty one it is the initial state, and valid. |
| `MutableTree.MutableTree.Set` | store/iavl/mutable_tree.go:101-120 | The object does what the state machine does for Set, and stays valid. |
| `MutableTree.MutableTree.Remove` | store/iavl/mutable_tree.go:174-198 | The object does what the state machine does for Remove, and returns the removed value. |
| `MutableTree.MutableTree.AddOrphans` | store/iavl/mutable_tree.go:630-641 | Records exactly the persisted nodes of a list, with the versions they date from. |
| `MutableTree.MutableTree.Rollback` | store/iavl/mutable_tree.go:405-412 | Restores the last saved tree and forgets pending orphans. |
| `MutableTree.MutableTree.SaveVersion` | store/iavl/mutable_tree.go:431-485 | Branch, orphans and root go through one batch, the outcome is the state machine's next version, and the hash returned is the one recorded for it. |
| `MutableTree.MutableTree.DeleteVersion` | store/iavl/mutable_tree.go:487-543 | Deletes one version in one commit, or refuses it, as the state machine says. |
| `MutableTree.MutableTree.DeleteVersions` | store/iavl/mutable_tree.go:508-526 | The loop batches the deletions and commits once, as the state machine says, and the tree is valid afterwards if and only if the versions are separate; a refusal leaves the database as it was. |
| `MutableTree.MutableTree.GetVersioned` | store/iavl/mutable_tree.go:416-427 | Descends through the node database with its cache and returns what the saved tree holds, changing nothing but the cache. |
| `MutableTree.MutableTree.FindVersion` | store/iavl/mutable_tree.go:312-340 | Finds the greatest saved version up to a target, or of all versions for target 0. |
| `MutableTree.MutableTree.LoadVersion` | store/iavl/mutable_tree.go:312-352 | On an open or a newly opened tree, loads the named or the latest version, reports 0 for an empty database, records which versions there are, and changes nothing else if the version does not exist; loading the latest version is rolling back. |
| `MutableTree.MutableTree.Load` | store/iavl/mutable_tree.go:258-260 | A newly opened tree over the database that any state left behind becomes, on Load, a valid tree in that state rolled back, and the version loaded is the latest. |
| `MutableTree.MutableTree.LoadVersionForOverwriting` | store/iavl/mutable_tree.go:356-379 | Does what the state machine says for every target, and stays valid unless the target is 0. |
| `NodeDb.NodeDB.GetNode` | store/iavl/nodedb.go:68-102 | The record returned, from the bounded cache or from the database, is always the stored one; a cached node moves to the back of the queue, any other joins the cache. |
| `NodeDb.NodeDB.CacheNode` | store/iavl/nodedb.go:429-438 | The cache gains the node; once it is full, exactly the node at the front of the queue leaves, so that it never holds more nodes than its size. |
| `NodeDb.NodeDB.UncacheNode` | store/iavl/nodedb.go:420-425 | The node leaves the cache and the queue, and nothing else does. |
| `NodeDb.WithoutSplit` | store/iavl/nodedb.go:420-425 | Of the entries in the queue that carry a hash, the last one leaves, and all others keep their order. |
| `NodeDb.NodeDB.SaveNode` | store/iavl/nodedb.go:105-128 | The pending database gains exactly the node's record, and the node joins the cache. |
| `NodeDb.NodeDB.SaveBranch` | store/iavl/nodedb.go:153-172 | The pending database gains exactly the records of the unpersisted nodes, and the branch comes back marked persisted. |
| `NodeDb.NodeDB.SaveOrphans` | store/iavl/nodedb.go:269-278 | Every orphan gets an entry that ends at the previous surviving version. |
| `NodeDb.NodeDB.GetPreviousVersion` | store/iavl/nodedb.go:352-370 | Finds the greatest committed version below the given one; reads do not see the batch. |
| `NodeDb.LastRootKey` | store/iavl/nodedb.go:352-370 | The previous version is the one whose root key comes last in the range of keys from version 1 up to the given one, and 0 if that range is empty. |
| `NodeDb.NodeDB.DeleteOrphans` | store/iavl/nodedb.go:291-321 | Whatever is pending, the loop over the committed entries of one version ends or shortens each of those lifetimes in what is pending. |
| `NodeDb.NodeDB.DeleteVersion` | store/iavl/nodedb.go:175-186 | Orphans first, then the root: the pending store loses the version, with its lifetimes as the database has them, whatever was batched before. |
| `NodeDb.NodeDB.DeleteNodesFrom` | store/iavl/nodedb.go:241-264 | The recursion removes exactly the nodes of a stored tree that date from the given version or later. |
| `NodeDb.NodeDB.DeleteVersionsFrom` | store/iavl/nodedb.go:189-237 | The pending database is the store without all later versions; fails if the latest root is missing. |
| `NodeDb.NodeDB.SaveRoot` | store/iavl/nodedb.go:490-501 | Refuses any version but the one after the latest, and otherwise records the root. |
| `NodeDb.NodeDB.Commit` | store/iavl/nodedb.go:441-459 | The database becomes what was pending, and nothing is pending any more. |
| `TreeMutation.RecursiveSet` | store/iavl/mutable_tree.go:122-170 | The new subtree is well formed: exact heights and sizes, sibling heights at most 1 apart, routing keys equal to the least key on the right; its bounds and its size are those of the old one with the key. |
| `TreeMutation.SetContent` | store/iavl/mutable_tree.go:122-170 | Set is map update, and reports an update exactly if the key was there. |
| `TreeMutation.RecursiveRemove` | store/iavl/mutable_tree.go:207-255 | The new subtree is well formed and one leaf smaller, routing keys are repaired through the reported new least key, and nothing changes if the key is absent. |
| `TreeMutation.RemoveContent` | store/iavl/mutable_tree.go:207-255 | Remove is map deletion; it returns the removed value, and orphans nothing exactly if the key was absent. |
| `TreeMutation.RebalanceCorrect` | store/iavl/mutable_tree.go:546-628 | In all four rotation cases rebalancing a node whose sides differ by two keeps contents, order and bounds and restores balance. |
| `AvlReference.RebalanceIsJoin` | store/iavl/mutable_tree.go:546-628 | Rebalancing builds the shape that a textbook AVL join builds from the two subtrees: which rotation is done, and what goes where. |
| `AvlReference.SetIsInsert` | store/iavl/mutable_tree.go:122-170 | Set builds exactly the tree of a textbook AVL insertion that computes all heights and routing keys and has no shortcut, with the new value stamped with the working version. |
| `AvlReference.RemoveIsDelete` | store/iavl/mutable_tree.go:207-255 | Remove builds exactly the tree of a textbook AVL deletion, absent if nothing is left. |
| `AvlReference.SetStamps` | store/iavl/mutable_tree.go:122-170 | Read as a map from keys to values with the version at which they were set, Set updates its key to the new value and the working version, also if the value is the same. |
| `AvlReference.RemoveStamps` | store/iavl/mutable_tree.go:207-255 | Remove takes its key out of that map and leaves all others as they were. |
| `Sharing.SetFresh` | store/iavl/mutable_tree.go:122-170 | Every node of the tree after Set was in it before, or is the new leaf, or is an unpersisted inner node of the working version. |
| `Sharing.SetKeeps` | store/iavl/mutable_tree.go:122-170 | Set copies nothing but the path: every subtree that hangs off it is in the new tree as the same node. |
| `Sharing.RemoveFresh` | store/iavl/mutable_tree.go:207-255 | Every node of the tree after Remove was in it before, or is an unpersisted inner node of the working version. |
| `Sharing.RemoveKeeps` | store/iavl/mutable_tree.go:207-255 | The sibling of a subtree that vanishes takes its parent's place as the same node; otherwise both stay, unless the sibling is then two levels higher and a rotation takes it apart. |
| `Orphans.SetConserves` | store/iavl/mutable_tree.go:148-168 | For every hash, persisted nodes before Set = persisted nodes after it + orphans it hands over. |
| `Orphans.RemoveConserves` | store/iavl/mutable_tree.go:212-254 | The same conservation for Remove. |
| `Orphans.RebalanceConserves` | store/iavl/mutable_tree.go:585-628 | The same conservation for every rotation case. |
| `OrphanExactness.SetOrphansExact` | store/iavl/mutable_tree.go:107-170 | The persisted nodes that one Set orphans are exactly those reachable from the old root and not from the new one, each once. |
| `OrphanExactness.RemoveOrphansExact` | store/iavl/mutable_tree.go:182-255 | The same for Remove. |
| `AvlBound.LeavesOfHeight` | store/iavl/node.go:420-427 | A well-formed tree of height h has at least Fib(h + 2) leaves. |
| `AvlBound.HeightFitsInt8` | store/iavl/util.go:27-32 | No tree whose size fits int64 has a height above 125, so int8 heights do not overflow. |
| `TreeReads.LeavesSorted` | store/iavl/node.go:420-423 | The leaves are in strictly ascending key order within the tree's bounds, and the size field is their number. |
| `TreeReads.GetContent` | store/iavl/node.go:158-177 | Get returns the map's value. |
| `TreeReads.HasContent` | store/iavl/node.go:144-155 | Has, which stops early at a routing key, agrees with the map, because routing keys are keys of the tree. |
| `TreeReads.GetRank` | store/iavl/node.go:158-177 | The index that Get returns is the number of smaller keys, whether the key is present or not. |
| `TreeReads.GetCounts` | store/iavl/node.go:158-177 | Seen from the map, that index counts its keys below the one asked for. |
| `TreeReads.GetByIndexSelects` | store/iavl/node.go:179-194 | GetByIndex(i) returns the i-th smallest pair for every index in range and nothing outside. |
| `TreeReads.RankSelect` | store/iavl/immutable_tree.go:148-161 | Rank and select are inverse to each other. |
| `Traversal.TraverseFeeds` | store/iavl/node.go:443-500 | A traversal calls its callback on a prefix of the visited nodes, up to and including the one that stops it. |
| `Traversal.TraversalExact` | store/iavl/node.go:443-500 | The leaves visited are precisely those in range, exclusive or inclusive, in ascending or descending order, although subtrees are pruned by routing key only. |
| `Traversal.RangeKeysExact` | store/iavl/node.go:443-462 | Seen from the map, a range holds its keys from the start on and below the end, and the end itself if and only if it is inclusive. |
| `Traversal.NodePlace` | store/iavl/node.go:443-500 | An inner node comes before all that is visited below it, and after it in post-order. |
| `Traversal.WholeTree` | store/iavl/node.go:430-441 | Without bounds every node of the tree is visited, and as many visits are made as there are nodes. |
| `Traversal.IterateRangeExact` | store/iavl/immutable_tree.go:180-205 | The function given to IterateRange sees exactly the pairs in range, one by one, until it stops. |
| `RangeProof.ComputeHash` | store/iavl/proof_range.go:236-291 | The verifier always terminates, and leaves as many inner paths as leaves, so it never runs out of paths. |
| `RangeProof.RunComputeHash` | store/iavl/proof_range.go:236-291 | The recursive verifier with its queues, loops and early returns computes that function. |
| `RangeProof.RunPathHash` | store/iavl/proof_path.go:67-74 | The loop over a path computes the root hash that the path implies. |
| `ProofPath.LeftmostIffStart` | store/iavl/proof_path.go:76-83 | A path of a tree has only right hashes if and only if it leads to the first leaf. |
| `ProofPath.RightmostIffEnd` | store/iavl/proof_path.go:85-92 | A path of a tree has only left hashes if and only if it leads to the last leaf. |
| `ProofIndex.RunIndex` | store/iavl/proof_path.go:95-111 | The loop sums the leaves that each step to the right passes, and gives -1 if a node has both hashes. |
| `ProofIndex.IndexIsBefore` | store/iavl/proof_path.go:95-111 | For a path of a tree that leads to a leaf, Index is the number of leaves before that leaf. |
| `ProofIndex.LeftIndexExact` | store/iavl/proof_range.go:85-90 | The left index of a verified proof is the position of its first leaf among all leaves of the tree. |
| `ProofSoundness.PathSound` | store/iavl/proof.go:55-91 | A path that hashes to a tree's root is a path of that tree. |
| `ProofSoundness.ComputeSound` | store/iavl/proof_range.go:236-291 | Whatever the verifier consumed for a subtree hash is a contiguous run of that subtree's leaves from the place its path leads to. |
| `ProofVerify.VerifySound` | store/iavl/proof_range.go:184-304 | A well-formed proof that recomputes a tree's root lists a contiguous in-order run of its leaves, and treeEnd holds if and only if the run reaches the last leaf. |
| `ProofVerify.VerifyItemExact` | store/iavl/proof_range.go:95-114 | VerifyItem accepts a pair if and only if the proof has the key and the tree maps it to that value. |
| `ProofVerify.VerifyAbsenceExact` | store/iavl/proof_range.go:119-173 | VerifyAbsence accepts a key if and only if it is not in the tree and the proof reaches to both sides of it: a smaller leaf or the start of the tree, and a greater leaf or the end of the tree. |
| `ProofObject.CheckedProof.constructor` | store/iavl/proof_range.go:13-25 | A proof that has not been verified yet. |
| `ProofObject.CheckedProof.RememberRootHash` | store/iavl/proof_range.go:211-218 | The memoised hash is the computed one, and nothing is memoised on an error. |
| `ProofObject.CheckedProof.Verify` | store/iavl/proof_range.go:176-198 | Accepts exactly the root hash that the proof computes, whatever was asked before; once verified, a proof stays verified. |
| `ProofObject.CheckedProof.CheckItem` | store/iavl/proof_range.go:95-114 | Refuses everything before verification; afterwards accepts exactly the tree's pairs whose key is in the proof. |
| `ProofObject.CheckedProof.CheckAbsence` | store/iavl/proof_range.go:119-173 | Refuses everything before verification; afterwards accepts exactly the absent keys that the proof reaches around. |
| `ByteSuccessor.IncrIsNext` | store/iavl/util.go:38-51 | Among keys of one width, cpIncr of a key that is not all 0xFF is the next key. |
| `ByteSuccessor.RunCpIncr` | store/iavl/util.go:38-51 | The loop with its carry computes cpIncr, including the all-0xFF case. |
| `KeyFormat.CpIncrAdds` | store/iavl/util.go:38-51 | As a number, cpIncr adds one at the same width; the greatest number of a width becomes zero, one byte longer. |
| `ProverWalk.PathToLeafFollows` | store/iavl/proof.go:160-196 | pathToLeaf yields a path of the tree, in the form the verifier expects, to a leaf of it. |
| `ProverWalk.FeedPath` | store/iavl/proof_range.go:363-421 | The callback, which compares nodes with the first path, collects exactly the segments behind that path until it stops. |
| `ProofCompleteness.ComputeComplete` | store/iavl/proof_range.go:236-291 | The verifier accepts any first path followed by any prefix of the segments behind it, and computes the root hash and treeEnd. |
| `RangeComplete.RangeProofVerifies` | store/iavl/proof_range.go:314-450 | Every request that stops at its first leaf, or whose first leaf's increment steps to the next key, is answered with a well-formed proof of the root hash. |
| `RangeComplete.RangePairsExact` | store/iavl/proof_range.go:314-450 | With no limit the pairs returned are exactly those in [start, end), for the same trees. |
| `RangeComplete.RangeItemsVerify` | store/iavl/proof_range.go:314-450 | Then every returned pair passes VerifyItem against the returned proof. |
| `RangeComplete.FixedWidthSteppable` | store/iavl/util.go:38-51 | Trees whose keys have one width, none all 0xFF, can be stepped through by cpIncr. |
| `RangeCondition.RangeExactIff` | store/iavl/proof_range.go:314-450 | Unlimited answers are exact from every key of the tree if and only if cpIncr steps from each key to the next. |
| `RangeCondition.AllFFAnsweredTwice` | store/iavl/proof_range.go:314-450 | The tree of the key [255] answers that key twice. |
| `KeyProofs.GetWithProofExact` | store/iavl/proof_range.go:456-465 | If the walk does not take place or steps to the next key, and for keys of any width, GetWithProof returns the map's value with a proof that verifies and passes VerifyItem; an absent key passes VerifyAbsence if and only if no greater key exists or the increment of the greatest smaller key is below the key's own. |
| `KeyProofs.GetWithProofComplete` | store/iavl/proof_range.go:456-465 | In particular, for keys of one width none of which is all 0xFF, every answer verifies and proves presence with the value or absence. |
| `KeyProofs.AbsenceCutOff` | store/iavl/proof_range.go:351-374 | The tree of keys [1] and [3], and the absent key [1, 5], whose proof verifies but does not pass VerifyAbsence. |
| `KeyProofs.KeyProofVerifies` | store/iavl/proof_range.go:119-173 | In every well-formed tree, the leaf a key's path leads to, with the leaf behind it if the walk takes place, recomputes the root hash and proves the value of a key that is present. |
| `RangeWalk.RangeVerifiesIff` | store/iavl/proof_range.go:314-450 | For every request on every well-formed tree, the returned proof verifies if and only if the request stops at its first leaf, or the increment of that leaf's key steps to the next key or passes all keys. |
| `RangeWalk.AbsenceProvedIff` | store/iavl/proof_range.go:456-465 | For every well-formed tree and absent key, the proof of GetWithProof verifies and passes VerifyAbsence if and only if the walk is not cut off, where there is none or it steps to the next key; elsewhere, if and only if the increment passes all keys and the key lies below all. |
| `RangeWalk.GetWithProofValue` | store/iavl/proof_range.go:456-465 | Whatever the proof is worth, the value that GetWithProof returns is the map's. |
| `RangeWalk.RangeLimited` | store/iavl/proof_range.go:314-450 | In every tree, a limit returns that many leaves of the unlimited proof with their paths, and the pairs of all of them but the last, or of the first if that is all; a limit that is not reached changes nothing. |
| `KeyFormat.RunKeyBytes` | store/iavl/key_format.go:44-59 | Filling the zeroed buffer at a running offset gives the formatted key; oversized or surplus segments are refused. |
| `KeyFormat.PaddedNumber` | store/iavl/key_format.go:44-59 | Filling up a segment keeps the number it writes. |
| `KeyFormat.FormatRoundTrip` | store/iavl/key_format.go:77-88 | Scanning a formatted key gives its segments padded to their slots, and exactly the segments if and only if they fill their slots and no empty slot follows. |
| `KeyFormat.BigEndianOrder` | store/iavl/key_format.go:140-144 | Big-endian numbers of one width are ordered like the numbers. |
| `KeyFormat.RootRange` | store/iavl/nodedb.go:352-370 | A range of root keys holds the roots of exactly a range of versions. |
| `KeyFormat.OrphanPrefix` | store/iavl/nodedb.go:385-387 | The orphan keys under a version prefix are exactly the entries that end at that version. |
| `KeyFormat.KindsApart` | store/iavl/nodedb.go:21-35 | No orphan or node key lies in a range of root keys, no root or node key has an orphan prefix, and keys of different kinds differ. |
| `CacheStore.Store.constructor` | store/cachekv/store.go:38-45 | A new cache looks like its parent. |
| `CacheStore.Store.Get` | store/cachekv/store.go:53-67 | Reads like the plain map that the store stands for and changes no map, at any depth of nesting. |
| `CacheStore.Store.Has` | store/cachekv/store.go:81-84 | Tells whether the plain map has the key. |
| `CacheStore.Store.Set` | store/cachekv/store.go:70-78 | Is map update on the store's map, and does not touch the parent. |
| `CacheStore.Store.Delete` | store/cachekv/store.go:87-94 | Is map deletion on the store's map, and does not touch the parent. |
| `CacheStore.Store.SetCacheValue` | store/cachekv/store.go:218-227 | Changes one cache entry, and marks it unsorted if it is dirty. |
| `CacheStore.Store.Write` | store/cachekv/store.go:97-129 | Makes the parent's map equal to the store's, which does not change, and empties the cache; stores below the parent are untouched. |
| `CacheStore.Store.DirtyItems` | store/cachekv/store.go:176-212 | After it the sorted list is strictly ascending and holds exactly the pending writes of the domain; no map changes. |
| `CacheStore.Store.Iterate` | store/cachekv/store.go:148-173 | The iterator has yet to yield exactly the entries of the store's map in [start, end), deletions left out, each once, in either direction, after any interleaving of earlier calls. |
| `CacheStore.TakeUnsorted` | store/cachekv/store.go:176-185 | The loop over unsorted keys takes exactly those of the domain, with their cached values. |
| `CacheStore.MergeSorted` | store/cachekv/store.go:191-210 | The cursor loop over the sorted list computes the merge of the two lists. |
| `CacheState.MergeIntoLists` | store/cachekv/store.go:187-210 | That merge is strictly ascending, replaces old items of the same key and loses nothing. |
| `CacheState.DirtyItemsTracked` | store/cachekv/store.go:176-212 | Merging the unsorted items of a domain re-establishes that the sorted list holds that domain's pending writes, stale values included only outside it. |
| `CacheState.CachedRead` | store/cachekv/store.go:53-67 | A lookup in the cache, falling back to the parent, is a lookup in the overlaid map. |
| `CacheMerge.MergeLists` | store/cachekv/mergeiterator.go:182-231 | Merging a sorted parent with sorted cache items yields the sorted list of the parent overlaid with the cache, deletions left out, in either direction. |
| `SortedList.ListsUnique` | store/cachekv/mergeiterator.go:57-119 | A map has only one sorted list in each direction, so the iteration is determined. |
| `CacheIterator.MemIterator.constructor` | store/cachekv/memiterator.go:23-44 | The filtering loop with its early exit keeps exactly the items of the domain. |
| `CacheIterator.MemIterator.Next` | store/cachekv/memiterator.go:60-67 | Drops the first item in iteration order, in either direction. |
| `CacheIterator.MergeIterator.SkipCacheDeletes` | store/cachekv/mergeiterator.go:170-177 | Skips deletions without changing what remains to be yielded. |
| `CacheIterator.MergeIterator.SkipUntilExists` | store/cachekv/mergeiterator.go:182-231 | Terminates, changes nothing that remains to be yielded, and stops at an entry that exists if there is one. |
| `CacheIterator.MergeIterator.IsValid` | store/cachekv/mergeiterator.go:57-59 | Valid exactly while something remains. |
| `CacheIterator.MergeIterator.Next` | store/cachekv/mergeiterator.go:62-89 | Drops the first remaining entry, through any depth of nested iterators. |
| `CacheIterator.MergeIterator.Key` | store/cachekv/mergeiterator.go:92-119 | The key of the first remaining entry. |
| `CacheIterator.MergeIterator.Value` | store/cachekv/mergeiterator.go:122-149 | The value of the first remaining entry. |
| `PrefixRange.PrefixEndBytes` | store/types/utils.go:59-80 | The shrinking loop computes the end of a prefix range, absent for empty and all-0xFF prefixes. |
| `PrefixRange.PrefixRangeExact` | store/types/utils.go:59-80 | A key lies between a prefix and its end in byte order if and only if it has the prefix. |
| `PrefixRange.PrefixIteration` | store/prefix/store.go:84-114 | Iterating the parent over the shifted bounds and stripping the prefix yields the sorted list of the stripped submap in [start, end). |
| `PrefixStore.PrefixedStore.Get` | store/prefix/store.go:60-63 | Reads the stripped submap. |
| `PrefixStore.PrefixedStore.Has` | store/prefix/store.go:66-68 | Tells whether the stripped submap has the key. |
| `PrefixStore.PrefixedStore.Set` | store/prefix/store.go:71-75 | Updates the stripped submap and leaves every key without the prefix alone. |
| `PrefixStore.PrefixedStore.Delete` | store/prefix/store.go:78-80 | Deletes from the stripped submap and leaves every key without the prefix alone. |
| `PrefixStore.PrefixedStore.Iterate` | store/prefix/store.go:84-114 | Forward and reverse iterators enumerate exactly the stripped submap in [start, end). |
| `PrefixStore.PrefixIterator.constructor` | store/prefix/store.go:129-137 | What remains is the run of prefixed entries, stripped. |
| `PrefixStore.PrefixIterator.IsValid` | store/prefix/store.go:145-147 | Valid exactly while something remains. |
| `PrefixStore.PrefixIterator.Next` | store/prefix/store.go:150-158 | Drops the first remaining entry. |
| `PrefixStore.PrefixIterator.Key` | store/prefix/store.go:161-168 | The stripped key of the first remaining entry. |
| `PrefixStore.PrefixIterator.Value` | store/prefix/store.go:171-176 | The value of the first remaining entry. |
| `CoinSets.CanonicalUnique` | types/coin.go:150-152 | A sorted coin set without zero amounts is determined by its amount per denomination. |
| `CoinSets.FitsIff` | types/int.go:217-225 | An amount fits if and only if its magnitude has at most 255 bits. |
| `CoinSets.RunSafeAdd` | types/coin.go:256-302 | The two-index loop computes the merge, or panics on a 255-bit overflow. |
| `CoinSets.RemoveZeroCoins` | types/coin.go:557-570 | The deleting loop keeps exactly the non-zero coins, in order. |
| `CoinAlgebra.SafeAddExact` | types/coin.go:256-302 | For sorted sets addition fails exactly if some sum overflows; otherwise the result is sorted, has no zeros, and has the sum of amounts for every denomination. |
| `CoinAlgebra.SafeAddCommutes` | types/coin.go:247-249 | Addition commutes, overflow included. |
| `CoinAlgebra.RunSafeSub` | types/coin.go:341-344 | The loops of negative, safeAdd and IsAnyNegative compute the difference and its sign report. |
| `CoinAlgebra.SafeSubExact` | types/coin.go:341-344 | Subtracting valid sets never overflows, is pointwise, and reports a negative amount exactly if the first set does not cover the second. |
| `CoinAlgebra.AddThenSub` | types/coin.go:330-337 | (A + B) - B = A, without a negative report. |
| `CoinValidity.AmountOfIsAmount` | types/coin.go:481-507 | On a sorted set the binary search finds what looking at every coin finds, and it panics exactly on an invalid denomination. |
| `CoinValidity.IsAllGTE` | types/coin.go:374-390 | The loop computes the comparison, absent if a lookup panics. |
| `CoinValidity.AllGTEMeaning` | types/coin.go:374-390 | On valid sets IsAllGTE, unless it panics, holds if and only if every denomination is covered, and SafeSub, which never panics on them, reports a negative amount if and only if it does not hold. |
| `CoinValidity.AllGTEPanicsIff` | types/coin.go:374-390 | On valid sets IsAllGTE panics if and only if the first set is not empty and the second has a coin with an invalid denomination before which every coin is covered. |
| `CoinValidity.AllGTEPanics` | types/coin.go:374-390 | A valid set that IsAllGTE cannot compare with itself, while SafeSub reports no negative amount. |
| `CoinValidity.RunIsValid` | types/coin.go:201-234 | The loop, which compares neighbours, accepts exactly sorted sets of positive amounts whose first denomination is fully valid and whose others are lower case. |
| `CoinValidity.AddKeepsValid` | types/coin.go:235-249 | The sum of valid sets is valid. |
| `CoinValidity.SubBreaksValidity` | types/coin.go:321-337 | Contrary to its documentation, Sub of two valid sets, given in the contract, returns an invalid set. |
| `CoinValidity.SubValidIff` | types/coin.go:321-337 | It returns a valid set if and only if the first coin that is not spent completely has a fully valid denomination. |
| `Decimal.ChopRoundNearest` | types/decimal.go:537-567 | An integer is the chopped value if and only if it is nearest to the exact one, the even one of two that are equally near. |
| `Decimal.DecFitsIff` | types/decimal.go:263-271 | A decimal fits if and only if its magnitude has at most 315 bits. |
| `Decimal.MulNearest` | types/decimal.go:263-271 | Mul returns c exactly if c fits and is the product to the nearest 18-digit value, ties to even. |
| `Decimal.MulOdd` | types/decimal.go:263-271 | Mul is odd in each argument and commutes, overflow included. |
| `Decimal.MulTruncateExact` | types/decimal.go:274-282 | MulTruncate returns c exactly if c fits and is the product rounded toward zero. |
| `Decimal.MulTruncateOdd` | types/decimal.go:274-282 | MulTruncate is odd in each argument and commutes, overflow included. |
| `Decimal.QuoError` | types/decimal.go:305-317 | Quo is within 1/2 + 10^-18 units of the exact quotient, for all signs. |
| `Decimal.QuoNearestIff` | types/decimal.go:305-317 | Quo is the nearest value, ties to even, if and only if its first, truncated quotient is not a false tie over an even result. |
| `Decimal.QuoExact` | types/decimal.go:305-317 | Quo returns q if and only if q fits, is that near to the exact quotient, and is the nearest value unless there is a false tie: which fixes the result, and the overflow. |
| `Decimal.QuoNotNearest` | types/decimal.go:305-317 | A quotient, given in the contract, that is not the nearest value. |
| `Decimal.QuoTruncateOnce` | types/decimal.go:320-332 | The two nested truncations equal one truncated division, for all signs. |
| `Decimal.QuoTruncateExact` | types/decimal.go:320-332 | QuoTruncate returns c exactly if c fits and is the quotient rounded toward zero. |
| `DecimalText.String` | types/decimal.go:472-522 | The buffer-filling code prints the sign, the digits and the point in their places, whatever the number of digits. |
| `DecimalText.RoundTrip` | types/decimal.go:162-210 | NewDecFromStr(d.String()) = d for every integer representation d. |
| `DecimalPrint.FormatPrinted` | types/decimal.go:472-522 | Every number prints as a minus sign exactly if it is negative, digits without a leading zero (or one zero), a point and 18 digits. |
| `DecimalPrint.FormatOnly` | types/decimal.go:472-522 | The printed string is the only one of that form that parses back to the number. |
| `DecimalText.ParseMeaning` | types/decimal.go:162-210 | Digits, a point and up to 18 digits parse to the number they write. |
| `DecimalForm.ParseExact` | types/decimal.go:149-210 | NewDecFromStr accepts a string if and only if it has the documented form (an optional minus sign, digits, and optionally a point and 1 to 18 digits) or has a further sign before a number that needs no digit before the point, and the value is the one written, the signs multiplied. |
| `DecimalForm.ErrorExact` | types/decimal.go:162-210 | Which error a refused string gives: nothing to read, a second point, nothing on one side of the point, or more than 18 decimals; all others are not a number. |
| `DecimalForm.DocumentedIff` | types/decimal.go:149-210 | A string that NewDecFromStr accepts has the documented form if and only if, behind one leading minus sign, it does not start with a sign. |
| `DecimalForm.DoubleSign` | types/decimal.go:162-210 | Two minus signs before digits are accepted although undocumented, and cancel. |
| `DecimalForm.SignsAlone` | types/decimal.go:162-210 | Signs with no digit before the point are accepted too: "+" and "--" are 0, and "+.5" is one half. |

## Left out

- Nodes as shared mutable objects: trees are values, so lazily loaded child pointers, in-place updates of fresh clones and memoised node hashes are not modelled; `MutableTree.GetVersioned` and `LoadVersion` do go through the node database hash by hash.
- The node and proof codecs (amino): a record is stored and read back losslessly, and equal hashes mean equal hashed fields.
- Deleting several versions in one batch is not among the operations that runs consist of; `VersionedTree.DeleteTogetherInv` says when such a step could be added to one. After a refusal the source keeps the batch it has begun, and what a later commit makes of it is not followed.
- Working on after `LoadVersion` of an older version, and with it the branch of `SaveVersion` that accepts a save identical to an existing version: neither is reachable by the operations that the runs consist of (`Runs.SaveIsFresh`).
- `LazyLoadVersion`, `AvailableVersions`, `Hash` and the other accessors: they only add easy members.
- MutableTree.MutableTree.SaveVersion: does not model the branch for a version that exists already, which is not reachable in a valid tree (`Runs.SaveIsFresh`).
- ProofVerify.VerifySound: is stated for well-formed proofs only, and with it ProofVerify.VerifyItemExact, ProofVerify.VerifyAbsenceExact, ProofSoundness.PathSound and ProofSoundness.ComputeSound; the verifier does not check that form itself, and what it concludes from other proofs is not characterised.
- ProofIndex.LeftIndexExact: well-formed proofs only, as above.
- ProofObject.CheckedProof.CheckItem: concludes about the tree for well-formed proofs only, as above.
- ProofObject.CheckedProof.CheckAbsence: concludes about the tree for well-formed proofs only, as above.
- ProofVerify.VerifyItemExact: well-formed proofs only, as above.
- ProofVerify.VerifyAbsenceExact: well-formed proofs only, as above.
- ProofSoundness.PathSound: well-formed paths only, as above.
- ProofSoundness.ComputeSound: well-formed paths only, as above.
- KeyProofs.GetWithProofComplete: fixed-width keys only, as a special case of `KeyProofs.GetWithProofExact`; all other trees and keys are covered by `RangeWalk.AbsenceProvedIff`.
- Overflow of `int64` versions and sizes: `MutableTree.SaveVersion` asks that the next version is below the largest `int64`, and sizes are unbounded integers.
- Mutexes and version readers, and the iterator of `store/iavl/store.go` that runs in a goroutine: iteration is the traversal itself.
- `GetRangeProof` on an empty tree, which returns no proof; the model starts from a root node. A negative limit and `start >= end` panic in the source and are preconditions.
- The traversal callback of `getRangeProof` as a closure over captured variables: its variables are a record that the traversal threads through.
- The linked list behind `sortedCache` is a sequence with a cursor, and a plain parent store is a map; its iterator is the list of rows it has left.
- The trace, gas, transient and list stores, and the height cache: they only add easy members or lie outside the files modelled.
- `Domain` and `Close` of iterators: easy members.
- Aliasing of coin slices: `removeZeroCoins` deletes in the backing array of its argument, which other holders of that array would see when it has zero coins; the model works on values.
- CoinValidity.RunIsValid: lower case is modelled for ASCII denominations; `strings.ToLower` on other characters is not.
- DecimalText.ParseMeaning: is about the form without a sign and with a point; `DecimalForm.ParseExact` has all forms.
- Parsing and printing of coins, and the other comparisons of coin sets (`IsAllGT`, `IsAnyGT`, `IsAnyGTE`, `IsEqual`): easy members beside those modelled.
- In-place mutation of `big.Int` arguments by the chop functions: the callers modelled pass fresh numbers.
- `ApproxRoot`, `FracPow`, `Power`, `QuoRoundUp`, `Ceil` and `SortableDecBytes` of decimals.
- `baseapp`, `app`, the `x` modules, key bases and cryptography.
