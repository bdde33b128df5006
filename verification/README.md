# ByteTide: a verified model

ByteTide shares files between peers. A package lists the expected SHA-256 hash of every node of a Merkle tree over a
file's chunks; peers request chunks, send them in fragments and install them into a tree that all peer threads share.
This project models that core in Dafny and proves what it promises.

`dafny verify dfyconfig.toml` checks all of it.

## What is modelled

- **Hashing.** `Sha256Spec` states FIPS 180-4 (sections 5.1.1, 5.2.1, 5.3.3, 6.2) and the hex text; `Sha256` is the
  streaming code with its partial-block buffer, proved against it for every split of the input. `Sha256Constants` says
  what the constants and the logical functions are, `Sha256Vector` computes the digest of "abc".
- **The tree.** `Shape` is the index arithmetic of the level-order build, `Merkle` the meaning of the hashes (rebuild,
  incremental update, verdict), `MerkleTree` the linked nodes changed in place. A node is identified with its position
  in the level-order array. `Merkle` holds for any hash function; the class uses SHA-256. `LevelOrder` reads the linked
  tree back.
- **The shared tree.** `Concurrent` is `update_chunk_node` as a state machine in which each lock, unlock, copied byte,
  hashed byte and stored hash character is a step of its own; `ConcurrentRuns`, `ConcurrentOrder`,
  `ConcurrentProgress` and `ConcurrentReaders` state what holds over whole runs, and `ConcurrentOverlap` which runs
  there are.
- **The queries.** `CompletedSubtrees`, `LeafOrder`, `SplitSubtrees`, `Reports` and `OffsetSearch` prove what the
  recursions compute; `Queries` is the code over the linked nodes.
- **The transfer.** `Packet` packs and unpacks, `Channel` sends and receives over partial counts, `Transfer` takes a
  chunk from one tree into another.
- **The containers.** `Queue`, `Packages` and `PeerData`.

## Assumptions

- `nchunks == nhashes + 1`, and twice the number of nodes fits in 32 bits. Chunk sizes fit in 32 bits.
- Chunk ranges lie inside the file; where a result needs it they are pairwise disjoint.
- The root has no parent: `mtree_node_create` gives `parent` no value (src/tree/merkletree.c:145-174).
- The file's bytes can be written: the program maps them read-only (src/tree/merkletree.c:23).
- A write stays inside the file. Nothing else is asked of its offset, which the program takes from the packet;
  `Merkle.StrayWriteLeavesStaleHash` shows a write into another chunk going wrong, `Merkle.InstallRebuildsExactly` says
  exactly when one does, and the results on concurrent calls say which nodes it can reach.
- Consistent expected hashes and the absence of collisions between the strings compared are hypotheses of the lemmas
  that need them.
- The threads' single-byte reads and writes happen in one sequentially consistent order. The program reads the hashes of
  a node's children without their locks (src/crypt/sha256.c:280-296), which in C is a data race; `Concurrent` says
  nothing about what a compiler or a processor may make of it.
- Integers travel in little-endian order, that of the hosts the program is built for.
- An update call's size plus the buffered bytes stays below 2^32, as the 32-bit sum in `sha256_update` demands.

## Where the code departs from what one would expect

- The compact report expands to the chunks of the plain one in another order unless the number of chunks is a power of
  two or the complete ones all lie on one side of a fixed chunk (`Reports.ReportsAgreeIff`). This is about the nodes the
  lists hold: where expected hashes repeat, as those of three complete chunks with the same bytes, the texts can agree
  although the nodes do not.
- Both reports' lengths are cut to 16 bits: with 65536 complete chunks the plain one is empty
  (`Reports.FullPlainReportIsEmpty`, `Reports.ShownReportsAgreeIff`).
- The search among chunks scans hash nodes and finds no chunk but the first (`Reports.ChunkModeFindsIff`).
- The offset search relies on keys that leaves never receive, so a leaf target depends on what memory held
  (`OffsetSearch.LeafFoundIffKeyAdmits`), and with an odd number of chunks some internal keys do too
  (`OffsetSearch.KeyIsFirstAndLast`).
- A node whose leaves lie on two levels of the tree has a lower key above its upper one, so the offset search never
  enters it: with 10 chunks it misses every internal node of the left half, with 14 of the right
  (`OffsetSearch.FindsTopmostMatchIff`, `SplitSubtrees.HalfSplitIff`). Only for 2^m and 3 * 2^(m-1) chunks there is no
  such half (`SplitSubtrees.NothingSplitIff`).
- The lookup by hash counts nodes in 16 bits (`Reports.LookupFindsIff`).
- Packages are found and removed by a prefix of their identifier, so one can be taken for another
  (`Packages.FoundByOwnIdentIff`, `Packages.WrongPackageFound`).
- A peer on a port beyond 16 bits is searched for on another port but removed by its own: `connect` stores the port as
  parsed (src/peer_2_peer/cli.c:320), `disconnect` searches with 16 bits and removes with 32 (src/peer_2_peer/cli.c:94,
  108). Both take the same slot exactly as `PeerData.SearchAndRemovalAgreeIff` says (`PeerData.WidePortMismatch`).
- A receive that times out inside a packet drops what it has read, and framing with it (`Channel.Framing`).

## Model

| member | source | states |
|---|---|---|
| Concurrent.MoveKeepsInvariant | src/chk/pkgchk.c:276-295 | Every lock, byte copy, byte read, hash character write and unlock of any thread, wherever in the file the calls write, keeps the invariant: each internal node equals the hash of its children and nobody is rehashing it, or some thread in flight owes it a rehash; so does each leaf that no call through another leaf writes to |
| Concurrent.MoveKeepsCovered | src/chk/pkgchk.c:276-295 | The same for one node and one step: only a call that writes bytes of another leaf can leave that leaf wrong |
| Concurrent.WriteMoveCovers | src/tree/merkletree.c:285-288 | A hash overwritten character by character, possibly from stale children, leaves the node owed by its own thread or by one that has yet to lock it, and its parent owed by the writer |
| Concurrent.MoveIsExclusive | src/chk/pkgchk.c:281-289 | No two threads ever hold the lock of one node |
| ConcurrentRuns.RunKeepsInvariant | src/tree/merkletree.c:277-293 | The invariant holds in every state of every interleaving, with calls to any offset of the file arriving at any time |
| ConcurrentRuns.QuietIsClean | src/tree/merkletree.c:277-293 | Whenever no call is in flight every internal node is the hash of its children, wherever the calls wrote, and so is every leaf of its chunk that no call through another leaf wrote to |
| ConcurrentRuns.QuietIsConsistent | src/tree/merkletree.c:277-293 | If no call wrote to another leaf's chunk every node satisfies its Merkle equation |
| ConcurrentRuns.NeverStuck | src/tree/merkletree.c:285-292 | No deadlock: in any state with a call in flight some thread has an enabled step |
| ConcurrentRuns.MoveDoesWork | src/tree/merkletree.c:285-292 | Every step of every thread lowers the summed remaining work by exactly one |
| ConcurrentRuns.RunDoesWork | src/chk/pkgchk.c:281-294 | Without new calls a run has finished every call if and only if its length is the work it started with, and none is longer |
| ConcurrentRuns.CanFinish | src/chk/pkgchk.c:281-294 | From every state some schedule finishes all calls |
| ConcurrentOverlap.AnySectionsOverlap | src/chk/pkgchk.c:281-289 | Whatever other calls are doing, two new ones can be inside the critical sections of any two different nodes at once, each as far along as one likes, if nobody holds a lock on their ways there: a thread waits for the lock of its own node and for nothing else |
| ConcurrentOverlap.ChildWrittenWhileParentRead | src/crypt/sha256.c:286-287 | For any internal node and child there is a run in which one thread has read any number of the node's 128 characters, without the children's locks, while another has stored any number of the child's 64 |
| ConcurrentOverlap.TwoLeavesLocked | src/chk/pkgchk.c:281-286 | There is a run in which calls on two leaves hold their locks at once |
| ConcurrentOrder.RunKeepsOrder | src/chk/pkgchk.c:281-289 | At every moment each byte of the file is the one the calls logged so far put there, or the thread that holds the leaf has yet to copy it |
| ConcurrentOrder.SerialIsApplied | src/chk/pkgchk.c:281-292 | The calls made one after another leave their bytes overlaid in order and a tree as a rebuild leaves it |
| ConcurrentOrder.OwnChunksSeparate | src/chk/pkgchk.c:283-286 | Calls that stay in their own, disjoint chunks are separate: they write different bytes through different leaves, and none that another leaf hashes |
| ConcurrentOrder.FinishedRunIsSerial | src/chk/pkgchk.c:276-295 | Every finished run of separate calls leaves the bytes and all hashes of the same calls made one at a time, each once, in the order they took their leaf locks |
| ConcurrentProgress.AgreementNeverShrinks | src/chk/pkgchk.c:283-286 | With genuine fragments, through whatever leaf, a position that agrees with the original agrees for ever, in any interleaving |
| ConcurrentProgress.CorrectChunksStay | src/chk/pkgchk.c:283-286 | No correct chunk is lost |
| ConcurrentProgress.CoveredChunkPasses | src/chk/pkgchk.c:276-295 | Completion chunk by chunk: in any interleaving, once genuine bytes have landed on all of a leaf's chunk and its lock is free, the chunk is the original one and the leaf passes, whatever the calls on other leaves are doing |
| ConcurrentProgress.FullCoverCompletes | src/chk/pkgchk.c:276-295 | Once genuine fragments, each through its own leaf, cover the file and no call is in flight, the file is the original, every computed hash is the expected one and every node passes |
| ConcurrentReaders.RunKeepsLeaf | src/chk/pkgchk.c:281-289 | In every state of every interleaving a leaf whose lock is free, and to which no call through another leaf writes, has the hash of its present bytes |
| ConcurrentReaders.LeafVerdictIsTrue | src/tree/merkletree.c:261-275 | Whenever its lock can be taken, check_chunk on such a leaf answers exactly whether its present bytes have the expected hash |
| ConcurrentReaders.FreeNodeIsWhole | src/tree/merkletree.c:285-288 | In any interleaving, wherever the calls write, a node whose lock is free holds one whole digest, never parts of two |
| Merkle.MerkleEquations | src/crypt/sha256.c:253-296 | The equations written out: an internal node has the digest of the left child's text followed by the right child's, a chunk's node that of the bytes in the chunk's range |
| Merkle.RehashedIs | src/crypt/sha256.c:286-287 | Rehashing a node hashes its left child's text, then its right child's, and changes no other hash |
| Merkle.InstalledBytes | src/chk/pkgchk.c:283-286 | Of a packet larger than the chunk only as many bytes as the chunk has are copied, and no other byte changes |
| Merkle.ConsistentIsRebuilt | src/tree/merkletree.c:58-102 | All Merkle equations hold if and only if every hash is the one a build from scratch gives |
| Merkle.ClimbHeals | src/tree/merkletree.c:277-293 | The walk to the root repairs every equation when only proper ancestors of its start were broken |
| Merkle.InstallRebuilds | src/chk/pkgchk.c:276-295 | Incremental equals full rebuild: rehashing one leaf and its ancestors gives the hash a rebuild gives at every node |
| Merkle.InstallRebuildsExactly | src/chk/pkgchk.c:276-295 | The exact condition, absent collisions: the tree equals a rebuild after the update if and only if the bytes the call copies into other chunks are there already |
| Merkle.OthersKeptIff | src/chk/pkgchk.c:283-286 | That condition on the call and the state before it holds exactly when no other leaf hashes other bytes afterwards |
| Merkle.InsideOwnChunk | src/chk/pkgchk.c:283-286 | A write inside its own range of disjoint ranges meets that condition |
| Merkle.StrayWriteLeavesStaleHash | src/chk/pkgchk.c:283-287 | The offset is not checked against the leaf: a concrete write through leaf 1 that leaves leaf 2 stale |
| Merkle.PassesIsEqual | src/tree/merkletree.c:261-275 | On a tree with its hashes in place the string comparison decides equality of digests |
| Merkle.PassesIffLeavesPass | src/tree/merkletree.c:261-275 | With consistent expected hashes and no collision a node passes if and only if every leaf below it does |
| Merkle.RootPassesIffGenuine | src/tree/merkletree.c:261-275 | With no chunk collision either, the root passes if and only if every chunk is the original one |
| Shape.PreorderOnce | src/tree/merkletree.c:58-96 | The preorder in which the build visits a subtree has each of its nodes exactly once and nothing else |
| Shape.PreorderCoversArray | src/tree/merkletree.c:58-102 | From the root it has every position of the array exactly once |
| Shape.PreorderInOrder | src/tree/merkletree.c:58-96 | A node is visited before everything below it, and all of its left subtree before its right one |
| Shape.AncestorIsInternal | src/tree/merkletree.c:60-77 | With an odd number of nodes every proper ancestor has both children |
| Shape.LeavesOnce | src/chk/pkg_helper.c:187-223 | The leaves below a node are listed, each once, and nothing else is |
| Shape.LevelOrderReadsBack | src/tree/merkletree.c:58-102 | The breadth-first order of the positions is the order of the array |
| LevelOrder.ReadBack | src/tree/merkletree.c:69-77 | Walking the left and right links of a built tree breadth first gives the array of nodes back |
| LevelOrder.WalkIsBreadthFirst | src/tree/merkletree.c:69-77 | That walk takes the positions in breadth-first order |
| LevelOrder.HeightIsLongest | src/tree/merkletree.c:80 | A node's height is the length of the longest way down from it to a leaf |
| LevelOrder.DepthFits | src/tree/merkletree.c:81 | The nodes of depth d are those at the positions from 2^d - 1 up to 2^(d+1) - 2 |
| LevelOrder.WidthsSuffice | src/tree/merkletree.c:80-81 | Heights and depths of a built tree stay below 32, so their 16-bit fields lose nothing |
| MerkleTree.Node.constructor | src/tree/merkletree.c:145-175 | A new node has its expected hash, a zeroed computed hash, no links, no depth and no height |
| MerkleTree.Node.CheckChunk | src/tree/merkletree.c:261-275 | The verdict is that of comparing the 64 characters with strncmp |
| MerkleTree.MTree.ComputeChunkHash | src/crypt/sha256.c:253-273 | The digest of the bytes at the chunk pointer becomes the leaf's hash; a null or internal node is left alone |
| MerkleTree.MTree.ComputeInternalHash | src/crypt/sha256.c:280-296 | The digest of the left child's text followed by the right child's becomes the node's hash |
| MerkleTree.MTree.UpdateParentHashes | src/tree/merkletree.c:277-293 | The recursion over parent pointers rehashes the proper ancestors bottom up and changes no other hash |
| MerkleTree.MTree.UpdateChunkNode | src/chk/pkgchk.c:276-295 | A leaf: the overlaid bytes, the leaf's new hash and the climb, returning 0; any other node: -1 and nothing changes |
| MerkleTree.MTree.CombineNodes | src/chk/pkg_helper.c:123-148 | The level-order array is the hash nodes followed by the chunk nodes, internal and leaf positions exactly |
| MerkleTree.MTree.InitChunksData | src/tree/merkletree.c:240-259 | Every chunk node points at its bytes and holds their digest; internal nodes are left alone |
| MerkleTree.MTree.FromLvlOrder | src/tree/merkletree.c:58-113 | The nodes of the subtree are visited in preorder; it is linked, with heights, depths and keys, and hashes as a rebuild gives them; no node outside it changes |
| MerkleTree.MTree.SetMetadata | src/tree/merkletree.c:79-90 | Height, depth and key of an internal node |
| MerkleTree.MTree.HashesAreText | src/crypt/sha256.c:210-227 | The digests a tree compares have no NUL, as the results on check_chunk ask |
| MerkleTree.MTree.Build | src/tree/merkletree.c:30-36 | After the build every link is in place and every hash is the one the Merkle equations demand: that of each internal node is the digest of its left child's text followed by its right child's |
| Bytes.StrnEqualIs | src/tree/merkletree.c:264 | strncmp returns 0 if and only if the first n characters agree up to and including the first NUL |
| Bytes.StrnEqualDecides | src/tree/merkletree.c:264 | strncmp over n characters decides their equality when one side has no NUL |
| CompletedSubtrees.FaithfulIff | src/tree/merkletree.c:261-275 | What the results on the reports assume: of two trees with their hashes in place, no more than that where two nodes at one position have the same hash their children do; so for the genuine file |
| CompletedSubtrees.FrontierIsCompleted | src/chk/pkg_helper.c:150-185 | Expanding the returned nodes in order lists exactly the completed chunks below, in leaf order |
| CompletedSubtrees.FrontierIsDisjoint | src/chk/pkg_helper.c:150-185 | Their leaf sets are disjoint and their union is exactly the completed chunks |
| CompletedSubtrees.FrontierIsLeast | src/chk/pkg_helper.c:150-185 | Below a node with no chosen node above it no set of tree nodes with the same leaves has fewer members |
| CompletedSubtrees.FrontierIsMinimum | src/chk/pkg_helper.c:150-185 | The returned set is of minimum size among all sets of tree nodes whose leaves are the completed chunks |
| LeafOrder.LeavesAreSpan | src/chk/pkg_helper.c:187-223 | A subtree lists its leaves of the deepest level first, then those of the level above |
| LeafOrder.RootOrder | src/chk/pkg_helper.c:187-223 | For 2^m <= nchunks < 2^(m+1) the root lists the chunk nodes rotated by 2^(m+1) - nchunks |
| LeafOrder.OrderKeptIffPowerOfTwo | src/chk/pkg_helper.c:187-223 | The order is that of the chunk nodes if and only if nchunks is a power of two |
| LeafOrder.PerfectSlice | src/chk/pkg_helper.c:187-223 | In a perfect tree of height h node i at depth d lists the 2^(h-d) consecutive chunk nodes from (i + 1 - 2^d) * 2^(h-d) |
| Reports.ExpansionIsRotated | src/chk/pkg_helper.c:150-223 | Expanding the frontier lists the completed chunks in rotated order, for any number of chunks |
| Reports.ReportsAgree | src/chk/pkg_helper.c:150-223 | For a power of two the expansion is the list of completed chunks in their own order |
| Reports.CompleteReportsAgreeIff | src/chk/pkg_helper.c:150-223 | On a complete tree the two lists of nodes agree if and only if nchunks is a power of two |
| Reports.ReportsAgreeIff | src/chk/pkg_helper.c:150-223 | On any tree the lists of nodes agree if and only if none of the first 2^(m+1) - nchunks chunks is complete, or none of the others is; with distinct expected hashes the same holds of their texts |
| Reports.ShownReportsAgreeIff | src/chk/pkgchk.c:261-266 | What the two queries show after their lengths are cut to 16 bits agrees if and only if the nodes still shown stand above as many chunks as are still shown, and that is none or the whole lists agree: as nodes always, as texts with distinct expected hashes |
| Reports.VisibleReportsAgreeIff | src/chk/pkgchk.c:150-198 | With fewer than 65536 nodes in the compact report, what the queries show agrees if and only if fewer than 65536 chunks are complete and the whole lists agree: as nodes always, as texts with distinct expected hashes |
| Reports.FullPlainReportIsEmpty | src/chk/pkgchk.c:179-180 | With 65536 complete chunks the plain report has length 0 and the compact one length 1 |
| Reports.LookupIs | src/chk/pkg_helper.c:233-267 | For any hashes and any query, the node found is the first with that hash among as many as the mode counts in 16 bits, and none is found if and only if none of those has it |
| Reports.UnknownHashIsEmpty | src/chk/pkgchk.c:207-216 | A hash the package does not have gives an empty query |
| Reports.KnownHashListsChunks | src/chk/pkgchk.c:207-216 | A hash it has, below 65536 nodes, gives the hashes of the chunks below the first node with it |
| Reports.LookupFindsIff | src/chk/pkg_helper.c:233-267 | With distinct expected hashes node i is found if and only if it lies below the 16-bit count of the mode |
| Reports.ChunkModeFindsIff | src/chk/pkg_helper.c:247-251 | The search among chunks looks at the start of the combined array: of all chunk nodes it finds exactly the first, below 65536 chunks |
| Reports.ReportsAgreeByHash | src/chk/pkgchk.c:150-216 | With distinct hashes and fewer than 65536 nodes both queries show their whole lists, and looking up and expanding each hash of the compact one gives the plain one |
| SplitSubtrees.HalfSplitIff | src/tree/merkletree.c:58-96 | For 2^m <= nchunks < 2^(m+1) the left half of the tree has its leaves on two levels if and only if 2^m < nchunks < 3 * 2^(m-1), the right half if and only if 3 * 2^(m-1) < nchunks; such a half ends in the first chunk just below the upper bound |
| SplitSubtrees.NothingSplitIff | src/tree/merkletree.c:58-96 | No internal node is in such a half if and only if nchunks is 2^m or 3 * 2^(m-1) |
| OffsetSearch.KeyIsFirstAndLast | src/tree/merkletree.c:82-90 | An internal node's key is the offsets of its first and last leaf, except that where the last one is the first chunk, beside an internal node, the upper end is that leaf's key, which is never set |
| OffsetSearch.AdmitsIff | src/chk/pkg_helper.c:285-295 | With increasing chunk offsets that key admits a chunk's offset if and only if the node is above the chunk and its leaves are not split over two levels; in the excepted case if and only if its first leaf is not after the chunk and the unset key reaches the offset |
| OffsetSearch.SearchDescends | src/chk/pkg_helper.c:269-304 | With an even number of chunks the pruned search for a chunk's offset, once at a node that is not split, follows the path to that chunk and no other |
| OffsetSearch.FindsTopmostMatchIff | src/chk/pkg_helper.c:269-304 | With an even number of chunks the topmost internal match on that path is returned, even when the hash repeats elsewhere, if and only if it is the root or its half of the tree is not split; otherwise nothing is |
| OffsetSearch.SearchIsFirstHit | src/chk/pkg_helper.c:269-304 | For any number of chunks, any keys, any offset and any hashes the search returns the first node, in the order of the build, that has the hash and is reached through keys that admit the offset |
| OffsetSearch.UniqueMatchFoundIff | src/chk/pkg_helper.c:269-304 | For any number of chunks, any keys and any offset, a node that alone has the hash is found if and only if every key from it up to below the root admits the offset |
| OffsetSearch.UniqueInternalFoundIff | src/chk/pkg_helper.c:269-304 | For any number of chunks, an internal node that alone has the hash is found by the offset of a chunk below it if and only if its half is not split, or ends in the first chunk, which is not the one asked for, and the key never set there happens to reach the offset |
| OffsetSearch.LeafFoundIffKeyAdmits | src/chk/pkg_helper.c:285-301 | With an even number of chunks a leaf target is found if and only if its half is not split and the key left in the leaf, which is never set, happens to admit the offset |
| Queries.LargestCompletedSubtree | src/chk/pkg_helper.c:150-185 | The pointer recursion returns the hashes of the frontier, or null with count 0 |
| Queries.SubtreeChunks | src/chk/pkg_helper.c:187-223 | The pointer recursion returns the hashes of the leaves below the node, left to right |
| Queries.FindNodeFromHash | src/chk/pkg_helper.c:233-267 | The first node in the combined array with the queried hash, among as many as the 16-bit count of the mode |
| Queries.FindNodeFromHashOffset | src/chk/pkg_helper.c:269-304 | The recursion returns the node the search by key ranges gives |
| Queries.BuiltTreeHasKeys | src/tree/merkletree.c:82-90 | A built tree has the keys the results on the search assume |
| Queries.CompletedChunks | src/chk/pkgchk.c:150-181 | The expected hashes of the passing chunk nodes, in array order, with the length cut to 16 bits |
| Queries.MinCompletedHashes | src/chk/pkgchk.c:190-198 | The hashes of the frontier of the root |
| Queries.AllChunkHashesFromHash | src/chk/pkgchk.c:207-216 | The chunk hashes below the node found by hash, or none |
| Bytes.MergeArrays | src/utilities/my_utils.c:85-93 | The first elements of one array followed by the first elements of the other |
| Sha256Vector.DigestOfAbc | src/crypt/sha256.c:50-227 | The digest of abc, round by round as in appendix B.1 of FIPS 180-2, is the published one, in 64 lower-case characters |
| Sha256Constants.KIsCubeRoot | src/crypt/sha256.c:13-45 | Section 4.2.2: the constant of round t is the first 32 bits of the fraction of the cube root of the t-th prime |
| Sha256Constants.H0IsSquareRoot | src/crypt/sha256.c:51-58 | Section 5.3.3: word i of the initial value, the same of the square root of the i-th prime |
| Sha256Constants.RotRRotates | src/crypt/sha256.c:10 | The rotation by each amount used is a rotation to the right by that amount |
| Sha256Constants.RotRMoves | src/crypt/sha256.c:10 | Rotated by n, the low n bits are on top and the others n places lower |
| Sha256Constants.ChChooses | src/crypt/sha256.c:105-106 | Ch has the second word's bit where the first has a one, elsewhere the third's |
| Sha256Constants.MajAgrees | src/crypt/sha256.c:114-116 | Where the first two words agree Maj has their bit |
| Sha256Constants.MajSymmetric | src/crypt/sha256.c:114-116 | Maj does not depend on the order of its words |
| Sha256Spec.PadMeaning | src/crypt/sha256.c:174-193 | Section 5.1.1 of FIPS 180-4 below 2^64 bits: marker, least zeros, bit length |
| Sha256Spec.HexOutputInjective | src/crypt/sha256.c:199-227 | The hex text is an injective encoding of the chaining value without NUL |
| Sha256Spec.DigestNoNul | src/crypt/sha256.c:210-227 | No digest text contains a NUL |
| Sha256.MessageSchedule | src/crypt/sha256.c:69-94 | The 16 message words and the 48 derived ones of section 6.2.2 |
| Sha256.Rotate | src/crypt/sha256.c:101-127 | One turn of the loop on the working array is one round of section 6.2.2 |
| Sha256.RunRounds | src/crypt/sha256.c:100-128 | The loop computes all 64 rounds |
| Sha256.ComputeData.CalculateChunk | src/crypt/sha256.c:67-133 | The in-place block function is the compression of section 6.2.2 for every block and chaining value |
| Sha256.ComputeData.Init | src/crypt/sha256.c:50-63 | The initial hash value of section 5.3.3 and an empty buffer |
| Sha256.ComputeData.Update | src/crypt/sha256.c:137-165 | The chaining value and the buffer account for every byte absorbed so far, whatever was buffered before |
| Sha256.PadOneBlock | src/crypt/sha256.c:174-196 | The padding when the length fits in the last block |
| Sha256.PadTwoBlocks | src/crypt/sha256.c:182-196 | The padding when it takes another block |
| Sha256.ComputeData.Finalize | src/crypt/sha256.c:169-196 | The chaining value after the padded message |
| Sha256.ComputeData.Output | src/crypt/sha256.c:199-207 | The chaining words as big-endian bytes |
| Sha256.BinToHex | src/crypt/sha256.c:210-219 | Two lower-case hexadecimal characters for each byte |
| Sha256.HashPieces | src/crypt/sha256.c:50-227 | For every message and every split into updates, init, updates, finalize and hex output give the digest of the concatenation |
| Sha256.ComputeChunkHash | src/crypt/sha256.c:261-272 | The digest of a chunk |
| Sha256.ComputeInternalHash | src/crypt/sha256.c:281-293 | Two updates of 64 characters give the digest of their concatenation |
| Packet.ImageFields | src/peer_2_peer/packet.c:25-76 | Where each field lies in the 4096 bytes of either layout |
| Packet.LittleEndianAt | src/peer_2_peer/packet.c:28-66 | Byte k of an integer field is its k-th digit to base 256, the lowest first |
| Packet.ImageBytes | src/peer_2_peer/packet.c:25-76 | The 4096 bytes one by one: code, error, offset and size with their low bytes first, and the longer size field and shorter identifier for code 6 only |
| Packet.ParseOfImage | src/peer_2_peer/packet.c:25-133 | Unpacking a packed packet gives the packet back, in both layouts |
| Packet.ImageOfParse | src/peer_2_peer/packet.c:82-133 | Any 4096 bytes are the image of the packet they unpack to |
| Packet.ImageInjective | src/peer_2_peer/packet.c:25-76 | Distinct packets have distinct images |
| Packet.Marshall | src/peer_2_peer/packet.c:25-76 | The buffer becomes the image; each of the 4096 positions is written once, in order |
| Packet.Unmarshall | src/peer_2_peer/packet.c:82-133 | The packet the buffer parses to; the leading message code alone selects the layout |
| Packet.Strncpy | src/peer_2_peer/packet.c:167-172 | The text cut at its NUL or at the field's length, zero padded |
| Packet.FieldText | src/peer_2_peer/packet.c:167-172 | A text that fits is read back whole; a longer one is read back as its first n characters |
| Packet.FieldPadded | src/peer_2_peer/packet.c:167-172 | Behind the text a field is zero |
| Packet.DataFieldIs | src/peer_2_peer/packet.c:173-176 | Up to 2998 bytes of data are there with zeros behind them; of more data nothing is |
| Packet.CreateRes | src/peer_2_peer/packet.c:162-177 | The response payload; data of more than 2998 bytes is not copied |
| Packet.CreateReq | src/peer_2_peer/packet.c:188-203 | The request payload, its identifier cut to 1022 characters, data of more than 2998 bytes not copied |
| Packet.CodeBytes | src/peer_2_peer/packet.c:162-203 | A request goes out with the code 6 and a response with 7, in the first two bytes, then the error |
| Packet.RequestCarries | src/peer_2_peer/packet.c:188-203 | What the peer asked reads out of a packed request, of a long identifier the first 1022 characters |
| Packet.ResponseCarries | src/peer_2_peer/packet.c:162-177 | What a receiver reads out of a packed response is what the sender put in |
| Channel.SendAll | src/peer_2_peer/peer_handler.c:283-298 | Any positive partial sends emit the buffer in order, up to a failure |
| Channel.TrySend | src/peer_2_peer/peer_handler.c:274-307 | The wire grows by the packet's image, or, exactly when a send failed, by the part sent before |
| Channel.TryReceive | src/peer_2_peer/peer_handler.c:49-93 | Exactly the first 4096 bytes of the wire, unpacked, unless a receive fails; then the bytes read so far are gone |
| Channel.StreamPrefix | src/peer_2_peer/peer_handler.c:289-298 | A stream that begins with some images is the stream of packets that begin with those |
| Channel.SendPackets | src/peer_2_peer/peer_handler.c:344-350 | Every packet is sent; if no send fails the wire grows by their images in order, and the result says whether that is so |
| Channel.ReceivePackets | src/peer_2_peer/peer_handler.c:66-92 | Repeated receives take off the packets whose images are on the wire, in order: all of them, unless one receive fails |
| Channel.Exchange | src/peer_2_peer/peer_handler.c:61-298 | What the send loop put on a wire the receive loop takes off: a prefix of the same packets, in order, and all of them if and only if no send and no receive failed |
| Channel.AnyCountsHappen | src/peer_2_peer/peer_handler.c:66-72 | The sender can pass on any number of its packet's bytes at once and the receiver take any number of those; then both can fail, which drops what they hold |
| Channel.StuckMeansDelivered | src/peer_2_peer/peer_handler.c:61-92 | When neither loop can go on other than by failing, everything has arrived if and only if no byte was dropped |
| Channel.ScheduleKeepsOrder | src/peer_2_peer/peer_handler.c:61-92 | However sends and receives interleave every byte is accounted for, and while none is dropped all are in order; every schedule makes boundedly many moves that are not failures |
| Channel.DropsNothingIff | src/peer_2_peer/peer_handler.c:69-72 | A schedule drops nothing if and only if no send fails and receives time out between packets only |
| Channel.Framing | src/peer_2_peer/peer_handler.c:61-298 | While no send fails and no receive times out inside a packet, what arrives is a prefix of the packets sent; once neither side can go on other than by failing it is all of them if and only if that was so throughout |
| Transfer.SendFragments | src/peer_2_peer/peer_handler.c:339-354 | The loop sends the fragments of the chunk |
| Transfer.SendResPkts | src/peer_2_peer/peer_handler.c:330-355 | A chunk that passes is sent in fragments; otherwise one refusal with error 255 is sent |
| Transfer.FragmentsArePieces | src/peer_2_peer/peer_handler.c:344-354 | Each fragment is a valid packet with 1 to 2998 bytes of the chunk at their own offset, and they do not overlap |
| Transfer.FragmentAt | src/peer_2_peer/peer_handler.c:344-354 | Fragment k starts 2998 k bytes into the chunk and has 2998 bytes, the last one what is left; it has code 7, error 0, the expected hash and the identifier |
| Transfer.RefusalIs | src/peer_2_peer/peer_handler.c:330-335 | A refusal is a response with error 255 and no bytes |
| Transfer.FragmentsPartition | src/peer_2_peer/peer_handler.c:344-354 | Together the fragments carry exactly the bytes of the chunk, in order |
| Transfer.FragmentsCover | src/peer_2_peer/peer_handler.c:344-354 | Every byte of the chunk lies in some fragment |
| Transfer.InstalledByte | src/chk/pkgchk.c:283-286 | After any arrivals a byte is the sender's where a fragment arrived and the receiver's own elsewhere |
| Transfer.TransferDelivers | src/peer_2_peer/peer_handler.c:330-354 | Fragments packed, unpacked and installed in any order, with repeats, give the sender's chunk and the expected hash, change no other byte and leave the tree as a rebuild would |
| Transfer.OtherChunksKept | src/chk/pkgchk.c:276-295 | Every other chunk keeps its bytes and its leaf's hash |
| Transfer.FragmentIsGenuineCall | src/peer_2_peer/package.c:110-119 | Each fragment of a genuine chunk is a call the results on concurrent updates cover |
| Queue.Queue.Enqueue | src/utilities/my_utils.c:136-154 | The list stays well formed and gains the element at its end |
| Queue.Queue.Dequeue | src/utilities/my_utils.c:157-173 | The first element leaves; an empty queue gives nothing |
| Queue.Queue.Empty | src/utilities/my_utils.c:175-182 | Head and tail are null exactly when the queue is empty |
| Queue.Queue.Unlink | src/peer_2_peer/package.c:230-238 | Taking node k out keeps head, tail and links right and removes exactly that element |
| Packages.PrefixCompare | src/peer_2_peer/package.c:181-186 | strncmp over the query's length tests for a prefix |
| Packages.StrncmpIsPrefix | src/peer_2_peer/package.c:186 | strncmp over the query's length, on an identifier with its NUL and anything behind it, returns 0 if and only if the query is a prefix |
| Packages.FirstMatchIs | src/peer_2_peer/package.c:178-195 | The package taken is the first whose identifier starts with the query, never one with a shorter identifier |
| Packages.Packages.Add | src/peer_2_peer/package.c:204-210 | The list gains the package at its end; the count is the length modulo 256 |
| Packages.Packages.FindByIdent | src/peer_2_peer/package.c:178-195 | The first package the query is a prefix of, or null |
| Packages.Packages.Remove | src/peer_2_peer/package.c:219-251 | The first package the identifier is a prefix of leaves the list, returning 1; without one nothing changes, returning -1 |
| Packages.RemovesWhatFindFinds | src/peer_2_peer/package.c:178-251 | Removal succeeds if and only if a match exists, takes one package and no other, and leaves one match fewer |
| Packages.MatchIsFirstIff | src/peer_2_peer/package.c:178-251 | A query finds, and a removal takes, a package if and only if it matches there and nowhere earlier |
| Packages.FoundByOwnIdentIff | src/peer_2_peer/package.c:178-251 | A package is found and removed by its own identifier if and only if that is a prefix of no earlier one; otherwise an earlier package is and this one stays |
| Packages.AllFoundByOwnIdentIff | src/peer_2_peer/package.c:178-251 | All packages answer to their own identifiers if and only if no identifier is a prefix of an earlier one |
| Packages.WrongPackageFound | src/peer_2_peer/package.c:186-189 | Of packages ab and a, asking for a finds ab and removing a removes ab |
| Packages.FindsUniqueMatch | src/peer_2_peer/package.c:178-251 | A query that matches one package only finds it, and nothing once it is removed |
| PeerData.Peers.Add | src/peer_2_peer/peer_data_sync.c:91-110 | Below capacity the first free slot takes the peer; a full table stays as it is; the count is the number of occupied slots |
| PeerData.Peers.Remove | src/peer_2_peer/peer_data_sync.c:118-134 | The first slot whose peer has this address and this port is freed and counted down; if there is none nothing changes |
| PeerData.Peers.Find | src/peer_2_peer/peer_data_sync.c:143-161 | The first peer with this address and the port cut to 16 bits, or null |
| PeerData.FirstAtIs | src/peer_2_peer/peer_data_sync.c:127-153 | The slot taken is the first whose peer has both the address and the port |
| PeerData.SearchAndRemovalAgreeIff | src/peer_2_peer/peer_data_sync.c:118-161 | Searching and removing with one address and port, as cli.c:94 and 108 do, take the same slot or both none if and only if the port fits 16 bits or no peer has the address with either the port or its low 16 bits |
| PeerData.FoundByOwnPortIff | src/peer_2_peer/peer_data_sync.c:143-161 | A peer is found by its own address and port if and only if the port fits 16 bits and no earlier peer has both |
| PeerData.WidePortMismatch | src/peer_2_peer/peer_data_sync.c:118-161 | The witness: a peer on port 65616, alone in the table, is removed by that port but not found by it |
| PeerData.FreeIffBelowCapacity | src/peer_2_peer/peer_data_sync.c:97-107 | A free slot exists if and only if fewer peers are connected than there are slots |
| PeerData.OccupiedAfter | src/peer_2_peer/peer_data_sync.c:103-104 | How filling or freeing one slot changes the number of occupied slots |
| PeerData.RequestQueue.Enqueue | src/peer_2_peer/peer_data_sync.c:259-266 | The request joins at the end; the count is exact |
| PeerData.RequestQueue.Dequeue | src/peer_2_peer/peer_data_sync.c:273-286 | The oldest request leaves; the count is exact |
| PeerData.Perform | src/peer_2_peer/peer_data_sync.c:259-286 | Enqueueing and dequeueing on the linked queue do to its contents, and hand out, what the run model of the next row says |
| PeerData.FirstInFirstOut | src/peer_2_peer/peer_data_sync.c:259-286 | Over any run the requests handed out, then those still queued, are those enqueued, in order |

## Left out

- Locks in the class `MTree`: it is the sequential code; the locks and all interleavings are in `Concurrent`.
- Readers that take no lock: `send_res_pkts` compares the hashes and copies the bytes without one.
- MerkleTree.MTree.UpdateChunkNode: does not model a copy that runs past the end of the mapped file, which the program
  does not reject and which has no defined effect; neither do the concurrent calls.
- Sha256.ComputeData.Update: does not model a size whose 32-bit sum with the buffered bytes wraps; the copy that follows
  in the program can then run past its buffer.
- Sha256.HashPieces: does not model pieces of that size.
- Transfer.SendResPkts: does not model an internal node as the one to serve, whose null chunk the program reads. The
  leaf is given: the search among chunks does not look at the chunk nodes.
- Queries.CompletedChunks: does not model the reallocation of the array, only its listed part.
- Packet.Unmarshall: does not model the union's memory; a packet is a value with the fields its message code selects.
- Packages.Packages.FindByIdent: does not model a query without a NUL, which `strlen` would read past its end.
- The return values of `pkt_chk_update_data` and `pkt_install`, which invert the result of `update_chunk_node`.
- The error test of `pkt_install`, which compares an unsigned number with zero and never holds.
- Parsing of package files, the command line, configuration, file creation, mapping and unmapping.
- The handshake, ping, pong and disconnect packets, thread creation and cancellation, sockets and timeouts, which are
  failures of send and receive here.
- Request lifetime and fetch status: the handler hands on requests it has destroyed.
- The flag `is_complete`, whose assignment cannot be reached, and `mtree_get_nchunks_from_root`.
- Freeing of memory and failures of allocation.
