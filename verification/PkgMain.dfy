// From a package and a data file to an answer: build the tree, then query it. The flows of src/pkgmain.c and
// the completeness line of the package listing in src/package.c.
module PkgMain {
  import opened Sha256Spec
  import opened HeapIndex
  import opened Merkle
  import opened LevelOrder
  import opened NodeQueue
  import opened PackageData
  import opened PackageTree
  import opened Completeness
  import opened PkgChk
  import opened PackageLaws
  import opened FileLaws

  /** -chunk_check: the labels of the leaves that match, in order; in a perfect package, the correct chunks. */
  method ChunkCheck(arena: Arena, pkg: Package, contents: Bytes) returns (hashes: array<Hash>, len: nat)
    requires |pkg.chunks| >= 2 && pkg.Loaded() && pkg.InFile(contents)
    modifies arena
    ensures arena.live == old(arena.live) && len <= hashes.Length == |pkg.chunks|
    ensures var n := LeafCount(pkg);
      2 * n - 1 <= |pkg.AllHashes()| && n <= |pkg.FileHashes(contents)|
      && hashes[..len] == Agreeing(pkg.AllHashes()[n - 1..2 * n - 1], pkg.FileHashes(contents)[..n], 0)
    ensures Perfect(pkg) ==> hashes[..len] == CompletedChunks(pkg, contents, 0)
  {
    hide HashHex, TreeOf, Agreeing, CompletedChunks, HashTree.CompletedLeaves;
    var tree := BuildTree(arena, pkg, contents);
    hashes, len := GetCompletedChunks(tree, |pkg.chunks|);
    FreeTree(tree, arena);
    CompletedOfPackage(pkg, contents);
    if Perfect(pkg) { CompletedIsFilter(pkg, contents); }
  }

  /** -min_hashes: as few matching nodes as can cover what the matching nodes cover. */
  method MinHashes(arena: Arena, pkg: Package, contents: Bytes) returns (hashes: array<Hash>, len: nat)
    requires |pkg.chunks| >= 2 && pkg.Loaded() && pkg.InFile(contents)
    modifies arena
    ensures arena.live == old(arena.live) && len <= hashes.Length == |pkg.chunks|
    ensures var t := TreeOf(pkg, contents);
      hashes[..len] == t.Listing(t.Topmost())
      && forall f: set<nat> :: CoversAsMuch(t, f) ==> len <= |f|
  {
    hide HashHex, TreeOf;
    var tree := BuildTree(arena, pkg, contents);
    hashes, len := GetMinCompletedHashes(tree, |pkg.chunks|);
    FreeTree(tree, arena);
    ghost var t := TreeOf(pkg, contents);
    forall f: set<nat> | CoversAsMuch(t, f)
      ensures len <= |f|
    {
      TopmostIsMinimal(t, f);
    }
  }

  /** f is a family of matching nodes that covers every leaf the matching nodes cover. */
  ghost predicate CoversAsMuch(t: HashTree, f: set<nat>) {
    (forall m :: m in f ==> t.Matches(m))
    && forall l, a :: t.Leaf(l) && t.Matches(a) && Covers(a, l) ==> exists m :: m in f && Covers(m, l)
  }

  /**
   * -hashes_of: nothing for a hash that no node carries; otherwise the block of the first node (d, j)
   * that carries it, which in a perfect package is a block of chunk hashes.
   */
  method HashesOf(arena: Arena, pkg: Package, contents: Bytes, hash: Hash) returns (hashes: array<Hash>, len: nat)
    requires |pkg.chunks| >= 2 && pkg.Loaded() && pkg.InFile(contents)
    modifies arena
    ensures arena.live == old(arena.live) && len <= hashes.Length == |pkg.chunks|
    ensures len == 0 <==> forall i :: 0 <= i < 2 * LeafCount(pkg) - 1 ==> pkg.AllHashes()[i] != hash
    ensures forall d: nat, j: nat :: FirstAt(pkg, contents, hash, d, j) ==>
      IsBlock(pkg, hashes[..len], Log2(|pkg.chunks|), d, j)
      && (Perfect(pkg) ==> IsChunkBlock(pkg, hashes[..len], Log2(|pkg.chunks|), d, j))
  {
    hide *;
    var tree := BuildTree(arena, pkg, contents);
    hashes, len := GetAllChunkHashesFromHash(tree, |pkg.chunks|, hash);
    FreeTree(tree, arena);
    HashesOfIs(pkg, contents, hash, hashes[..len]);
  }

  /** Node (d, j) is the first in level order that the package gives this hash. */
  predicate FirstAt(pkg: Package, contents: Bytes, hash: Hash, d: nat, j: nat)
    requires |pkg.chunks| >= 2 && pkg.Loaded() && pkg.InFile(contents)
  {
    d <= Log2(|pkg.chunks|) && j < Pow2(d) && TreeOf(pkg, contents).FirstWith(hash, 0) == NodeAt(d, j)
  }

  lemma HashesOfIs(pkg: Package, contents: Bytes, hash: Hash, answer: seq<Hash>)
    requires |pkg.chunks| >= 2 && pkg.Loaded() && pkg.InFile(contents)
    requires answer == TreeOf(pkg, contents).ChunksOf(hash)
    ensures |pkg.AllHashes()| >= 2 * LeafCount(pkg) - 1
    ensures answer == [] <==> forall i :: 0 <= i < 2 * LeafCount(pkg) - 1 ==> pkg.AllHashes()[i] != hash
    ensures forall d: nat, j: nat :: FirstAt(pkg, contents, hash, d, j) ==>
      IsBlock(pkg, answer, Log2(|pkg.chunks|), d, j)
      && (Perfect(pkg) ==> IsChunkBlock(pkg, answer, Log2(|pkg.chunks|), d, j))
  {
    hide HashHex, TreeOf, IsBlock, IsChunkBlock, NodeAt, HashTree.ChunksOf, HashTree.FirstWith;
    var h := Log2(|pkg.chunks|);
    TreeLeaves(pkg, contents);
    ChunksOfEmptyIff(TreeOf(pkg, contents), hash);
    forall d: nat, j: nat | FirstAt(pkg, contents, hash, d, j)
      ensures IsBlock(pkg, answer, h, d, j) && (Perfect(pkg) ==> IsChunkBlock(pkg, answer, h, d, j))
    {
      ChunksOfIsSlice(pkg, contents, hash, h, d, j);
      if Perfect(pkg) { BlockOfPerfect(pkg, answer, h, d, j); }
    }
  }

  /** The report on a well-formed package is wrong exactly when the done chunks are those of one proper subtree. */
  ghost predicate WrongIffOneBlock(pkg: Package, contents: Bytes, complete: bool)
    requires MerklePackage(pkg) && pkg.InFile(contents)
  {
    var h := Log2(|pkg.chunks|);
    complete != BlockDone(pkg, contents, h, 0, 0) <==> exists d: nat, j: nat :: OnlyBlockDone(pkg, contents, h, d, j)
  }

  /**
   * The listing of packages: add_package, then isComplete, and free_package in the end. The report on a
   * well-formed package is wrong exactly for one proper subtree, unless SHA-256 collides in the tree; whether
   * or not it does, a whole package is reported complete, and so is the first chunk of two without the second.
   */
  method PackageStatus(arena: Arena, pkg: Package, contents: Bytes) returns (complete: bool)
    requires |pkg.chunks| >= 2 && pkg.Loaded() && pkg.InFile(contents)
    modifies arena
    ensures arena.live == old(arena.live)
    ensures complete <==> ReportedComplete(TreeOf(pkg, contents))
    ensures MerklePackage(pkg) ==>
      WrongIffOneBlock(pkg, contents, complete) || exists c :: DigestCollision(TreeOf(pkg, contents), c)
    ensures MerklePackage(pkg) && (forall p: nat | p < |pkg.chunks| :: ChunkDone(pkg, contents, p)) ==> complete
    ensures MerklePackage(pkg) && FirstOfTwoOnly(pkg, contents) ==> complete
  {
    hide *;
    var tree := BuildTree(arena, pkg, contents);
    complete := IsComplete(tree, |pkg.chunks|);
    FreeTree(tree, arena);
    StatusOf(pkg, contents);
  }

  lemma StatusOf(pkg: Package, contents: Bytes)
    requires |pkg.chunks| >= 2 && pkg.Loaded() && pkg.InFile(contents)
    ensures MerklePackage(pkg) ==>
      WrongIffOneBlock(pkg, contents, ReportedComplete(TreeOf(pkg, contents)))
      || exists c :: DigestCollision(TreeOf(pkg, contents), c)
    ensures MerklePackage(pkg) && (forall p: nat | p < |pkg.chunks| :: ChunkDone(pkg, contents, p)) ==>
      ReportedComplete(TreeOf(pkg, contents))
    ensures MerklePackage(pkg) && FirstOfTwoOnly(pkg, contents) ==> ReportedComplete(TreeOf(pkg, contents))
  {
    hide HashHex, TreeOf, ChunkDone, ReportedComplete, BlockDone, OnlyBlockDone, DigestCollision;
    if MerklePackage(pkg) {
      ReportWrongIff(pkg, contents, Log2(|pkg.chunks|));
      if forall p: nat | p < |pkg.chunks| :: ChunkDone(pkg, contents, p) {
        AllDoneReported(pkg, contents);
      } else if FirstOfTwoOnly(pkg, contents) {
        FirstOfTwoReported(pkg, contents);
      }
    }
  }
}
