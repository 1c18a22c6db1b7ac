# Merkle package verification: a Dafny model

The program distributes files as packages. A package lists the expected SHA-256 hash of every chunk of a
data file and of every inner node of a Merkle tree over the chunks. The program hashes the chunks it has,
grows the tree over them, labels the nodes with the expected hashes and answers queries: which chunks are
complete, which is the smallest set of matching subtrees, which chunks lie under a hash, is the package
complete. This project models that engine and the incremental SHA-256 beneath it, and proves what they
promise.

## How the model is laid out

| file | what it holds |
|---|---|
| `Sha256Spec.dfy` | the hash function of FIPS 180-4, section 6.2, as functions over byte sequences |
| `Primes.dfy` | the table of the first 64 primes, and why it is complete |
| `Sha256SpecChecks.dfy` | the definitions against independent laws: constants and roots of primes, sums and counting, padding and length byte by byte, text form and decoding |
| `KnownAnswers.dfy` | the two worked examples of FIPS 180-2, sections B.1 and B.2, derived from the definitions round by round |
| `Sha256.dfy` | `struct sha256_compute_data` as a class: compression, update, finalize, output |
| `HeapIndex.dfy` | numbers of tree nodes in breadth-first order, ancestors, depth-first addresses, the queue of a level-order traversal |
| `Merkle.dfy` | trees of expected and computed hashes as values: binding, the minimal set |
| `Blocks.dfy` | the leaves below a node as a contiguous block of labels |
| `Completeness.dfy` | when the completeness report is given and when it misleads |
| `Coherence.dfy` | the queries against each other |
| `NodeQueue.dfy` | `struct tree_node`, the allocator of nodes and the linked-list queue |
| `MerkleTree.dfy` | chunk hashing and the recursive growth of the tree |
| `LevelOrder.dfy` | the finished tree in the heap, labelling, freeing |
| `PackageData.dfy` | a loaded package and the slices of a data file |
| `PkgChk.dfy` | the three traversal queries |
| `PackageTree.dfy` | the build pipeline of `add_package`, `isComplete`, `bpkg_get_all_hashes` |
| `PkgMain.dfy` | the flows of the two programs: build the tree, then answer one query |
| `PackageLaws.dfy`, `FileLaws.dfy` | what all of this says about a package and a file, chunk by chunk |

Bytes are 8-bit and words 32-bit vectors; counters whose C type is wider are natural numbers with the
reduction written out. A hash is its 64 hexadecimal characters as bytes. Nodes of the tree are numbered
breadth-first, children of `i` being `2i+1` and `2i+2`; the ghost field `Layout` of a tree lists its heap
nodes by number, and `View` reads the two hashes of every node into a value of type `HashTree`. The
definitions of the queries (`Topmost`, `CompletedLeaves`, `FirstWith`, `LeavesBelow`) mention no queue.

The hash function is a parameter in `Merkle`, `Completeness` and `Coherence`, and `HashHex`, the modelled
SHA-256, in `PackageLaws` and `FileLaws`. It is never assumed to be injective: a lemma that holds up to
collisions ends in `exists c :: CollidesAt(h, t, c)`, which names a node of the tree at hand whose expected
and computed children are two different 128-byte inputs with one hash, or in `LabelsCollide`, which names two
nodes whose expected children are.

## Preconditions

* `sha256_update` needs `chunk_size + size < 2^32`. Beyond that its 32-bit sum wraps at
  `src/crypt/sha256.c:140` and the buffered bytes are passed over. At `size == 2^32 - chunk_size` the `memcpy` of
  line 160 then fills the 64-byte buffer to its end, `chunk_size` becomes 64 and `sha256_finalize` writes behind
  the buffer (line 171); for larger sizes that `memcpy` itself does. Sizes up to 2^32 - 64 always qualify.
* The length field of the padding is the bit length modulo 2^64, as in the code; below 2^61 bytes, where
  the standard applies, that is the bit length itself.
* Building a tree needs two chunks or more: the leaf case reads `parent->right` without a check
  (`src/tree/merkletree.c:141`), so a one-chunk package dereferences a null pointer.
* The data file is there and not empty: for an empty one the `mmap` of `src/tree/merkletree.c:35` fails, `hashChunk`
  returns no list and the recursion reads through it. The contracts below also cover the empty byte sequence,
  where they say nothing about the program.
* Chunks with a positive size lie inside the file, at offsets an `int` can hold.
* `bpkg_load` checks only `nchunks == nhashes + 1`. The number of chunks need not be a power of two: building,
  labelling and the queries are proved for every package with at least two chunks, with all array
  accesses in range. `Perfect` adds that it is one; `AlignIffPowerOfTwo` and `FilterIffPowerOfTwo` show what is
  lost without it, `CompletedOfPackage` and `ChunksOfIsSlice` what the queries then answer.
* Nor does it check that the inner hashes are made from the chunk hashes. `MerklePackage` adds that; the laws that
  need it name it. `NodeVouches` needs it below the node only, and `AllBelowVouched` says for every loaded package
  what a matching node does and does not vouch for.

## Where the code and its documentation differ

* The report is documented as "the root matches" (the repository's `README.md:18`, `src/package.c:29`). The code
  asks whether the minimal query returns one hash. `ReportedWithoutSecond` gives, for every file, well-formed
  two-chunk packages that are reported complete without their second chunk, `PackageStatus` carries that through
  the heap code, and `ReportWrongIff` says exactly when the report is wrong: when the finished chunks are those of
  one proper subtree.
* The example at `include/chk/pkgchk.h:76-78` promises `(N_CHUNKS/2) + 1` hashes when the first half is complete.
  The code returns one (`OnlyBlockListed` at node (1, 0)), as the wording at `src/chk/pkgchk.c:194-196` asks; the
  model follows the code.
* The repository's `README.md:15` says that the tree is built in level order; the code recurses depth-first.

## Main results

1. `Sha256.HashPieces`: the streaming implementation computes SHA-256 of the concatenation, for every cut into pieces.
   That the functions it is measured against are SHA-256 rests on the laws of `Sha256SpecChecks` and on the published
   answers of `KnownAnswers.AbcText` and `KnownAnswers.LongerText`.
2. `PackageTree.BuildTree`, on `MerkleTree.RecursiveTree` and `LevelOrder.LevelOrderAddHash`: recursion and
   level-order labelling leave the tree that `TreeOf` defines without a heap.
3. `LevelOrder.FreeTree`: every node is freed once, and none is read afterwards; with the nodes that `RecursiveTree`
   takes from the same allocator, every flow of `PkgMain` ends with what was allocated before it.
4. `PkgChk.GetMinCompletedHashes`, `GetCompletedChunks` and `GetAllChunkHashesFromHash`: the three traversals answer
   what their queue-free definitions say, within the capacity of the result.
5. `Merkle.TopmostIsMinimal` and `FileLaws.NodeVouches`: the minimal set is minimal, and a matching node vouches for
   every chunk below it, unless a collision is exhibited.
6. `FileLaws.FileCommitted` and `FileLaws.MatchMeansOriginal`: a computed hash commits to the bytes of the file below
   its node, so that a node matching on original and copy means equal bytes, unless a collision is exhibited.
7. `FileLaws.ReportWrongIff` and `FileLaws.ReportedWithoutSecond`: when the completeness report misleads.
8. `FileLaws.PackageQueriesCohere` and `FileLaws.TextOfHashesMisleads`: expanding the minimal set gives the completed
   chunks exactly when each label first occurs on its own level, and packages on which it does not.
9. `PackageLaws.AlignIffPowerOfTwo` and `PackageLaws.FilterIffPowerOfTwo`: the labelling and the chunk query are right
   for all packages of n chunks exactly when n is a power of two.
10. `PkgMain.ChunkCheck`, `MinHashes`, `HashesOf` and `PackageStatus`: the same from package and file to the answer.
11. `FileLaws.ChangeIsLocal`: a changed chunk disturbs nothing off its path to the root.

## Model

| member | source | states |
|---|---|---|
| `Sha256.HashPieces` | src/tree/merkletree.c:43-66 | however a message is cut into pieces, init, one update per piece, finalize and output give the hexadecimal SHA-256 of the whole message |
| `KnownAnswers.AbcText` | src/crypt/sha256.c:47-224 | the definitions give the published hash of "abc", character by character |
| `KnownAnswers.LongerText` | src/crypt/sha256.c:47-224 | and that of the 56-byte message of two blocks, the second one padding alone |
| `Sha256SpecChecks.FlattenJoins` | src/tree/merkletree.c:43-66 | pieces concatenate in order: cutting a message and joining the pieces gives it back |
| `Sha256.ComputeData.constructor` | src/crypt/sha256.c:47-60 | a fresh context has absorbed the empty message and holds the initial hash value |
| `Sha256.ComputeData.Update` | src/crypt/sha256.c:134-162 | for every buffer fill and every size with chunk_size + size < 2^32, the context afterwards represents the old message followed by the bytes: whole blocks folded, remainder in the buffer, byte count modulo 2^64 |
| `Sha256.ComputeData.AbsorbAll` | src/crypt/sha256.c:140-161 | under the same bound all whole blocks of buffer and input are compressed in order and fewer than 64 bytes are carried over |
| `Sha256.ComputeData.Finalize` | src/crypt/sha256.c:166-193 | one-block and two-block padding both leave the digest of the whole message in the hash words |
| `Sha256.ComputeData.FinishPadding` | src/crypt/sha256.c:184-192 | writing the big-endian bit length and compressing completes the padded message |
| `Sha256.PaddedRest` | src/crypt/sha256.c:171-182 | the part of the padded message after its whole blocks is the tail, 0x80, zeros and the length, in one block when the tail is under 56 bytes and in two otherwise |
| `Sha256.LengthWraps` | src/crypt/sha256.c:185-190 | the wrap of the 64-bit byte count and of its multiplication by 8 does not change the eight length bytes |
| `Sha256.StoreLength` | src/crypt/sha256.c:187-190 | the descending loop writes the length most significant byte first and touches nothing else |
| `Sha256SpecChecks.BigEndianByte` | src/crypt/sha256.c:187-190 | byte k of n holds the digit of weight 256^(n - 1 - k): most significant first |
| `Sha256SpecChecks.PadByte` | src/crypt/sha256.c:171-190 | every byte of the padded message: the message, 0x80, zeros, and the bit length most significant byte first, in the fewest blocks that hold them |
| `Sha256.ComputeData.CalculateChunk` | src/crypt/sha256.c:64-130 | the in-place loops compute the compression function of section 6.2.2 for every state and block |
| `Sha256.MessageSchedule` | src/crypt/sha256.c:70-91 | the array w ends up as the recursive message schedule |
| `Sha256.CompressRound` | src/crypt/sha256.c:98-124 | one shift through the array tv is one round on the working variables |
| `Sha256.AddInto` | src/crypt/sha256.c:127-129 | the working variables are added to the hash words modulo 2^32 |
| `Sha256SpecChecks.AddCounts` | src/crypt/sha256.c:115-128 | the addition of words is counting upwards, from the largest word to zero |
| `Sha256SpecChecks.Sum4IsSums` | src/crypt/sha256.c:90 | the four-term sum of the schedule is three such additions |
| `Sha256.Upper0` | src/crypt/sha256.c:107-109 | the shift-and-or macro expression is the rotation sum of section 4.1.2 |
| `Sha256.Upper1` | src/crypt/sha256.c:98-100 | the same for the sum over the fifth variable |
| `Sha256.Lower0` | src/crypt/sha256.c:82-84 | the same for the first schedule function |
| `Sha256.Lower1` | src/crypt/sha256.c:86-88 | the same for the second schedule function |
| `Sha256SpecChecks.ChSelects` | src/crypt/sha256.c:102-103 | the choice function takes each bit from the sixth or the seventh variable as the fifth one says |
| `Sha256SpecChecks.MajIsMajority` | src/crypt/sha256.c:111-113 | the majority function has a one exactly where two of its arguments do |
| `Sha256SpecChecks.JoinOrder` | src/crypt/sha256.c:71-74 | of two words made from bytes the one with the larger first differing byte is larger: bytes are read most significant first |
| `Sha256.ComputeData.Output` | src/crypt/sha256.c:196-204 | the 32 bytes are the words of the hash value, most significant byte first |
| `Sha256.BinToHex` | src/crypt/sha256.c:207-216 | two digits per byte, high half first |
| `Sha256.ComputeData.OutputHex` | src/crypt/sha256.c:219-224 | 64 characters, the text form of the hash value |
| `Sha256SpecChecks.RoundConstantsAreCubeRoots` | src/crypt/sha256.c:10-43 | constant t holds the first 32 fractional bits of the cube root of the prime that has t primes below it |
| `Sha256SpecChecks.InitialIsSquareRoots` | src/crypt/sha256.c:48-55 | initial word i holds the first 32 fractional bits of the square root of the prime that has i primes below it |
| `Primes.PrimesInOrder` | src/crypt/sha256.c:10-43 | the table behind the constants holds the first 64 primes in order, none left out |
| `Sha256SpecChecks.ZeroCountLeast` | src/crypt/sha256.c:174-182 | the number of zero bytes is the least one that brings the length to 448 modulo 512 bits |
| `Sha256SpecChecks.HexIsText` | src/crypt/sha256.c:209-215 | every output character is a lower-case hexadecimal digit, so C string functions copy it whole |
| `Sha256SpecChecks.HexDecodes` | src/crypt/sha256.c:209-215 | reading the two digits of a byte, high one first, gives the byte back |
| `Sha256SpecChecks.HexSpells` | src/crypt/sha256.c:207-216 | characters 2i and 2i + 1 of the text, read high digit first, are byte i |
| `Sha256SpecChecks.DigestWord` | src/crypt/sha256.c:196-204 | bytes 4i to 4i + 3, joined most significant first, are word i |
| `Sha256SpecChecks.EqualHexEqualDigest` | src/crypt/sha256.c:196-224 | equal text hashes come from equal digests: output loses nothing |
| `MerkleTree.HashOneChunk` | src/tree/merkletree.c:43-66 | the 1024-byte piecewise loop yields the SHA-256 of exactly the chunk's slice, of the empty message when the size is not positive |
| `MerkleTree.HashChunk` | src/tree/merkletree.c:41-68 | entry i is the hash of chunk i of the file, for every i |
| `PackageData.SliceByte` | src/tree/merkletree.c:43-66 | byte k of a chunk is byte offset + k of the file, and a chunk has size bytes, or none when size is not positive |
| `MerkleTree.ComputeParentHash` | src/tree/merkletree.c:92-104 | the parent gets the hash of the left child's 64 characters followed by the right child's |
| `Merkle.Pair` | src/tree/merkletree.c:95 | what an inner hash is taken of: its first 64 characters are the left hash, its last 64 the right one |
| `MerkleTree.RecursiveTree` | src/tree/merkletree.c:111-146 | from any node, on any initial memory: distinct fresh nodes, linked both ways, at the right numbers and positions, every node (itself included) carrying the hash over the leaves below it, the parent's hash written when called on a right child, and exactly these nodes added to what is allocated |
| `MerkleTree.JoinGrown` | src/tree/merkletree.c:116-130 | two grown subtrees that share no node, hung under one node, make a grown tree |
| `LevelOrder.LevelOrderAddHash` | src/tree/merkletree.c:206-238 | node i, breadth-first, gets entry i of the inner hashes followed by the chunk hashes; links and computed hashes stay |
| `LevelOrder.NextHash` | src/tree/merkletree.c:218-225 | the two running indices together pick entry a of the concatenated lists and stay in range |
| `LevelOrder.FreeTree` | src/tree/merkletree.c:240-258 | every node is freed exactly once, breadth-first, and nothing else is; each read and each free takes a node that is still allocated |
| `NodeQueue.Arena.Create` | src/tree/merkletree.c:78-90 | a new node without links, allocated in addition to what was |
| `NodeQueue.Queue.Push` | src/tree/merkletree.c:169-186 | walking to the last cell appends to the queue |
| `NodeQueue.Queue.Pop` | src/tree/merkletree.c:148-167 | the front leaves the queue; null on an empty queue |
| `NodeQueue.Queue.Empty` | src/tree/merkletree.c:188-193 | true exactly when nothing is queued |
| `HeapIndex.FrontierStep` | src/tree/merkletree.c:215-234 | popping node a and pushing its visited children turns the queue for a into the queue for a + 1 |
| `HeapIndex.FrontierFront` | src/tree/merkletree.c:215-216 | the front of the queue is the next visited node, and an empty queue means that none is left |
| `HeapIndex.NodeAtNumber` | src/tree/merkletree.c:122-123 | the node reached by the recursion at depth d with position j is number 2^d - 1 + j of the level order |
| `HeapIndex.AddressOf` | src/tree/merkletree.c:206-238 | every number is the number of some depth-first address |
| `HeapIndex.AddressUnique` | src/tree/merkletree.c:111-146 | no two addresses share a number |
| `Merkle.Binding` | src/chk/pkgchk.c:216-220 | between a matching node and a mismatching one below it lies a node that exhibits a collision, if the labels below the former are made from each other |
| `Merkle.MatchesFromLeaves` | src/tree/merkletree.c:92-104 | in consistent trees a node matches when all leaves below it do |
| `Merkle.MatchIffLeaves` | src/chk/pkgchk.c:216-220 | where the labels below it are consistent, a node matches exactly when all leaves below it do, or a collision below it is exhibited |
| `Merkle.AllBelowMatch` | src/chk/pkgchk.c:216-220 | whatever the labels, all nodes below a node match exactly when it does and the labels below it are consistent, or a collision below it is exhibited |
| `Merkle.TopmostApart` | src/chk/pkgchk.c:213-229 | no node lies below two members of the minimal set |
| `Merkle.TopmostCovers` | src/chk/pkgchk.c:213-229 | the minimal set covers exactly the leaves with a matching ancestor or self |
| `Merkle.TopmostIsMinimal` | src/chk/pkgchk.c:194-196 | no family of matching nodes that covers the same leaves is smaller |
| `Merkle.TopmostCoversCompleted` | src/chk/pkgchk.c:194-196 | in consistent trees the covered leaves are the completed ones, or a collision is exhibited |
| `PkgChk.GetMinCompletedHashes` | src/chk/pkgchk.c:202-232 | the array holds the expected hashes of exactly the topmost matching nodes, in level order, within nchunks entries |
| `PkgChk.GetCompletedChunks` | src/chk/pkgchk.c:163-192 | the array holds the expected hashes of exactly the matching leaves, in level order, within nchunks entries |
| `PkgChk.GetAllChunkHashesFromHash` | src/chk/pkgchk.c:245-292 | the array holds the hashes of the leaves below the first node in level order that carries the hash, nothing when there is none |
| `PkgChk.FindHash` | src/chk/pkgchk.c:254-266 | the search stops at the first node in level order with the expected hash, or finds that there is none |
| `PkgChk.TopmostFit` | src/chk/pkgchk.c:206 | the minimal set has at most as many members as the tree has leaves |
| `PkgChk.LeavesCount` | src/chk/pkgchk.c:166 | no set of leaves exceeds the capacity of a query result |
| `PackageTree.BuildTree` | src/package.c:71-79 | for every loaded package with two chunks or more the built heap tree is linked, carries the hashes over the file's chunks and is labelled from the two lists; its nodes are new, and nothing else is allocated |
| `PackageTree.LeafCount` | src/package.c:76 | the number of leaves is the largest power of two that is at most the number of chunks |
| `PackageTree.GrownIsLinked` | src/tree/merkletree.c:111-146 | what the recursion leaves behind is a complete tree: every number has its node, root parentless |
| `PackageTree.IsComplete` | src/package.c:27-39 | the answer is whether the minimal set has exactly one member |
| `PackageTree.GetAllHashes` | src/chk/pkgchk.c:142-160 | inner hashes, then chunk hashes |
| `Completeness.ReportedIffOneAbove` | src/package.c:27-39 | reported complete exactly when one matching node has all matching nodes below it |
| `Completeness.RootMatchReported` | src/package.c:29-37 | a matching root is always reported complete |
| `Completeness.WrongIffOneProperBlock` | src/package.c:27-39 | for consistent trees the report differs from the root's match exactly when the completed leaves are those of one proper subtree, or a collision is exhibited |
| `Blocks.BlockListing` | src/chk/pkgchk.c:267-288 | the leaves below node (d, j) are listed as block j of the last n labels |
| `Blocks.InnerListing` | src/chk/pkgchk.c:267-288 | the leaves below an inner node are those below its left child followed by those below its right child |
| `Coherence.EqualLabelsBelow` | src/chk/pkgchk.c:254-266 | two nodes of one level with one expected hash have the same list of chunk hashes below them, or two expected hashes below them collide |
| `Coherence.ExpandsToEnough` | src/chk/pkgchk.c:234-292 | the answer for a node's hash is never shorter than the list of leaves below the node, and longer exactly when the hash first occurs on a higher level |
| `Coherence.QueriesCohere` | src/chk/pkgchk.c:163-292 | if expanding the minimal set gives the completed listing, the label of every topmost node first occurs on its own level, or an expected and a computed hash collide; and conversely, or two expected hashes collide |
| `PackageLaws.ComputedConsistent` | src/tree/merkletree.c:92-146 | every inner node i of the built tree carries the hash of the text of node 2i + 1 followed by that of node 2i + 2 |
| `PackageLaws.AddressLabels` | src/tree/merkletree.c:206-238 | inner node (d, j) is labelled with inner hash 2^d - 1 + j, leaf j with the hash of chunk j, and leaf j carries the hash of chunk j of the file |
| `PackageLaws.PositionsAgree` | src/tree/merkletree.c:137-138 | in the heap, a leaf with position p has the expected hash and the computed hash of chunk p |
| `PackageLaws.AlignIffPowerOfTwo` | src/chk/pkgchk.c:84 | leaf p is labelled with the hash of chunk p in every package of n chunks exactly when n is a power of two |
| `PackageLaws.ReadBack` | src/chk/pkgchk.c:142-160 | reading the labels in level order gives back what the list query gives, all of it exactly when the package is perfect |
| `PackageLaws.CompletedOfPackage` | src/chk/pkgchk.c:163-192 | for any loaded package the query lists, from left to right, those of the last n labels that agree with the hashes of the first n chunks |
| `PackageLaws.CompletedIsFilter` | src/chk/pkgchk.c:163-192 | in a perfect package that is the filter over the chunks of the file, in file order |
| `PackageLaws.FilterIffPowerOfTwo` | src/chk/pkgchk.c:84 | whatever the file, it is that filter for every package of n chunks exactly when n is a power of two |
| `PackageLaws.ChunksOfIsSlice` | src/chk/pkgchk.c:234-292 | for any loaded package, when the first node with the hash is (d, j) the answer is the contiguous block j of n / 2^d entries among the last n labels |
| `PackageLaws.BlockOfPerfect` | src/chk/pkgchk.c:234-292 | in a perfect package that is block j of the chunk hashes |
| `PackageLaws.ChunksOfEmptyIff` | src/chk/pkgchk.c:267-270 | the answer is empty exactly when no node carries the hash |
| `FileLaws.NodeVouches` | src/chk/pkgchk.c:216-220 | a node whose package hashes below it are consistent matches exactly when every chunk in its block hashes correctly, or two different inputs with one SHA-256 digest are exhibited below it |
| `FileLaws.AllBelowVouched` | src/chk/pkgchk.c:216-220 | in every loaded package all nodes below a node match exactly when it does and the package's hashes below it are consistent, or a digest collision below it is exhibited |
| `FileLaws.HashCommits` | src/tree/merkletree.c:92-104 | two lists of leaves give a node one hash exactly when they agree below the node, or a collision below it is exhibited |
| `FileLaws.FileCommitted` | src/tree/merkletree.c:41-146 | two files give a node one computed hash exactly when they have the same bytes in every chunk below it, or a digest collision of two pairs or of two chunks is exhibited |
| `FileLaws.MatchMeansOriginal` | src/chk/pkgchk.c:216-220 | where a node matches on the original file it matches on a copy exactly when the copy has the same bytes below it, or such a collision is exhibited |
| `FileLaws.PackageQueriesCohere` | src/chk/pkgchk.c:163-292 | the expanded minimal set is the list of correct chunks of the file exactly when the hash of every topmost node first occurs on its own level, or a digest collision is exhibited, among the package's own hashes for the converse only |
| `FileLaws.AnswersWithBlock` | src/chk/pkgchk.c:234-239 | asked for a node's hash the query answers with the node's block of chunks in file order exactly when the hash first occurs on the node's level, or two hashes of the package collide |
| `FileLaws.DistinctCoheres` | src/chk/pkgchk.c:163-292 | in a package whose hashes are all different they do, and no two of its hashes collide |
| `FileLaws.TextOfHashesMisleads` | src/chk/pkgchk.c:254-266 | when a chunk is the text of the hashes of two others and its neighbour is missing, the expanded minimal set is not the list of correct chunks, or a digest collision is exhibited |
| `FileLaws.CompletedOnce` | src/chk/pkgchk.c:163-192 | in a package whose hashes are all different no correct chunk is listed twice |
| `FileLaws.ReportWrongIff` | src/package.c:27-39 | the report differs from "every chunk is correct" exactly when the correct chunks are those of one proper subtree, or a digest collision is exhibited |
| `FileLaws.ReportedWithoutSecond` | src/package.c:27-39 | for every file and any two stretches of it, a well-formed package of two chunks is reported complete although the second chunk is not done |
| `FileLaws.AllDoneReported` | src/package.c:27-39 | a well-formed package whose chunks are all done is reported complete, collisions or not |
| `FileLaws.OnlyBlockListed` | src/chk/pkgchk.c:194-232 | when the finished chunks are those of one proper subtree the minimal query answers with one hash, that of its root, or a digest collision is exhibited |
| `FileLaws.ChangeIsLocal` | src/tree/merkletree.c:41-68 | changing bytes of one chunk only changes computed hashes and match decisions on the path from its leaf to the root; of a chunk without a leaf, none |
| `PkgMain.ChunkCheck` | src/pkgmain.c:74-114 | from package and file, through heap tree and traversal, to the agreeing labels for any loaded package, and to the correct chunks in file order for a perfect one; every node is released |
| `PkgMain.MinHashes` | src/pkgmain.c:74-114 | the answer lists the topmost matching nodes, and no family of matching nodes that covers as much is smaller; every node is released |
| `PkgMain.HashesOf` | src/pkgmain.c:74-114 | for every hash: nothing exactly when no node carries it, otherwise the block of the first node (d, j) that does; every node is released |
| `PkgMain.PackageStatus` | src/package.c:71-153 | the status is whether the minimal set has one member; for a well-formed package it is wrong exactly when the correct chunks are those of one proper subtree, or a digest collision is exhibited; complete when every chunk is correct, and also when only the first of two is; every node is released |

## Left out

- Opening, mapping, creating and resizing files: the file is a byte sequence.
- The text scanning of `bpkg_load` and `config_load`: the model starts from a loaded package whose hashes are 64 bytes long without a zero byte.
- `log2` in floating point: the depth is the whole part of the logarithm plus one, which is what the conversion to `int` keeps for every `int` argument.
- Allocation failure, and allocating and freeing of queue cells, queues, query results and package objects: only tree nodes are followed from allocation to freeing. The queues that early returns leak have no counterpart.
- The unused `value` field of a node.
- Peers, packets, the command loop, printing, and the lists of peers and packages: short list routines and system calls.
- Peer-list locking: the threads lock copies of the mutex, so there is no exclusion to prove.
- Sha256.ComputeData.Update: does not model sizes at which the C sum wraps, because the code then passes over buffered bytes and its buffer is overrun, in the update or in the finalization after it.
- Sha256.ComputeData.AbsorbAll: does not model those sizes either, for the same reason.
- The strength of SHA-256: the model agrees with the standard and exhibits collisions; it assumes none away.
