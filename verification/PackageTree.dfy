// src/package.c: from a loaded package and its data file to the labelled tree, and the completeness report.
module PackageTree {
  import opened Sha256Spec
  import opened HeapIndex
  import opened Merkle
  import opened NodeQueue
  import opened PackageData
  import opened MerkleTree
  import opened LevelOrder
  import opened PkgChk
  import opened Completeness

  /** The whole part of the base-two logarithm, which is what the C conversion to int keeps. */
  function Log2(n: nat): (r: nat)
    requires n >= 1
    ensures Pow2(r) <= n < 2 * Pow2(r)
  {
    if n == 1 then 0 else 1 + Log2(n / 2)
  }

  /** How many leaves the tree of a package has. */
  function LeafCount(pkg: Package): (n: nat)
    requires |pkg.chunks| >= 2
    ensures 2 <= n <= |pkg.chunks| < 2 * n && n == Pow2(Log2(|pkg.chunks|))
  {
    Pow2(Log2(|pkg.chunks|))
  }

  /** The hashes of all nodes over the given leaves. */
  function TreeHashes(h: Hasher, leaves: seq<Hash>): (s: seq<Hash>)
    requires leaves != []
    ensures |s| == 2 * |leaves| - 1 && forall i :: 0 <= i < |s| ==> s[i] == NodeHash(h, leaves, i)
  {
    seq(2 * |leaves| - 1, i requires 0 <= i < 2 * |leaves| - 1 => NodeHash(h, leaves, i))
  }

  /** Every inner node of such a tree carries the hash of its children's hashes. */
  lemma TreeHashesConsistent(h: Hasher, leaves: seq<Hash>)
    requires leaves != []
    ensures Consistent(h, TreeHashes(h, leaves))
  {
    var s := TreeHashes(h, leaves);
    forall i: nat | i < |s|
      ensures ConsistentAt(h, s, i)
    {
      if 2 * i + 2 < |s| {
        assert s[i] == NodeHash(h, leaves, i);
      }
    }
  }

  /** The lists of a loaded package are long enough for its tree. */
  lemma ListsFit(pkg: Package, contents: Bytes)
    requires |pkg.chunks| >= 2 && pkg.Loaded() && pkg.InFile(contents)
    ensures var n := LeafCount(pkg);
      0 < 2 * n - 1 <= |pkg.AllHashes()| == 2 * |pkg.chunks| - 1
      && n <= |pkg.FileHashes(contents)| == |pkg.chunks|
  {
    hide HashHex;
  }

  /** A tree value from its labels and its leaf hashes. */
  lemma TreeShape(labels: seq<Hash>, leaves: seq<Hash>)
    requires leaves != [] && |labels| == 2 * |leaves| - 1
    ensures var t := HashTree(labels, TreeHashes(HashHex, leaves));
      t.WellFormed() && t.Size() == 2 * |leaves| - 1
  {
    hide HashHex, NodeHash;
  }

  /** The tree of a package over a data file, as a value. */
  function TreeOf(pkg: Package, contents: Bytes): (t: HashTree)
    requires |pkg.chunks| >= 2 && pkg.Loaded() && pkg.InFile(contents)
    ensures t.WellFormed() && t.Size() == 2 * LeafCount(pkg) - 1
  {
    hide *;
    ListsFit(pkg, contents);
    var n := LeafCount(pkg);
    var labels, leaves := pkg.AllHashes()[..2 * n - 1], pkg.FileHashes(contents)[..n];
    TreeShape(labels, leaves);
    HashTree(labels, TreeHashes(HashHex, leaves))
  }

  lemma GrownEverywhere(sub: Layer, leaves: seq<Hash>, i: nat)
    requires Grown(sub, 0, leaves) && i < |sub|
    ensures sub[i] != null && |sub| + 1 == 2 * |leaves| && NodeDone(sub, leaves, i)
    ensures i > 0 ==> ParentDone(sub, i)
  {
    hide NodeHash, HashHex, NodeDone, ParentDone;
    RootCovers(i);
    assert sub[i] != null <==> Covers(0, i);
    assert NodeDone(sub, leaves, i);
    assert i > 0 ==> ParentDone(sub, i);
  }

  lemma DoneIsLinked(nodes: seq<TreeNode>, leaves: seq<Hash>, i: nat)
    requires |nodes| + 1 == 2 * |leaves| && i < |nodes| && NodeDone(nodes, leaves, i)
    requires if i == 0 then nodes[0].parent == null else ParentDone(nodes, i)
    ensures NodeLinked(nodes, i) && nodes[i].computed_hash == NodeHash(HashHex, leaves, i)
  {
    hide NodeHash, HashHex;
  }

  /** A grown tree is a linked one, and its computed hashes are those over its leaves. */
  lemma GrownIsLinked(sub: Layer, leaves: seq<Hash>)
    requires leaves != [] && Grown(sub, 0, leaves) && sub[0] != null && sub[0].parent == null
    ensures forall i :: 0 <= i < |sub| ==> sub[i] != null
    ensures Linked(sub) && Computed(sub) == TreeHashes(HashHex, leaves)
  {
    hide NodeHash, HashHex, NodeDone, ParentDone, NodeLinked, Covers;
    forall i: nat | i < |sub|
      ensures sub[i] != null
    {
      GrownEverywhere(sub, leaves, i);
    }
    var nodes: seq<TreeNode> := sub;
    forall i: nat | i < |nodes|
      ensures NodeLinked(nodes, i) && nodes[i].computed_hash == NodeHash(HashHex, leaves, i)
    {
      GrownEverywhere(sub, leaves, i);
      DoneIsLinked(nodes, leaves, i);
    }
  }

  lemma TreeOfIs(pkg: Package, contents: Bytes)
    requires |pkg.chunks| >= 2 && pkg.Loaded() && pkg.InFile(contents)
    ensures var n := LeafCount(pkg); var leaves := pkg.FileHashes(contents)[..n];
      |leaves| == n && |pkg.AllHashes()| == 2 * |pkg.chunks| - 1
      && TreeOf(pkg, contents) == HashTree(pkg.AllHashes()[..2 * n - 1], TreeHashes(HashHex, leaves))
  {
  }

  /** Nodes with the computed hashes of a package's tree become that tree once they are labelled. */
  lemma LabelsComplete(nodes: seq<TreeNode>, pkg: Package, contents: Bytes)
    requires |pkg.chunks| >= 2 && pkg.Loaded() && pkg.InFile(contents)
    requires |pkg.FileHashes(contents)| == |pkg.chunks|
    requires Computed(nodes) == TreeHashes(HashHex, pkg.FileHashes(contents)[..LeafCount(pkg)])
    ensures |nodes| <= |pkg.AllHashes()| && |nodes| / 2 < |pkg.chunks|
    ensures View(nodes).(expected := pkg.AllHashes()[..|nodes|]) == TreeOf(pkg, contents)
  {
    hide HashHex, NodeHash, TreeOf;
    TreeOfIs(pkg, contents);
  }

  /** Hashing the chunks and growing the tree over them. */
  method GrowTree(arena: Arena, pkg: Package, contents: Bytes) returns (tree: Tree)
    requires |pkg.chunks| >= 2 && pkg.Loaded() && pkg.InFile(contents)
    modifies arena
    ensures fresh(tree) && tree.Valid() && |pkg.FileHashes(contents)| == |pkg.chunks|
    ensures Computed(tree.Layout) == TreeHashes(HashHex, pkg.FileHashes(contents)[..LeafCount(pkg)])
    ensures forall i :: 0 <= i < |tree.Layout| ==> fresh(tree.Layout[i])
    ensures arena.live == old(arena.live) + NodeSet(tree.Layout) && arena.freed == old(arena.freed)
  {
    hide NodeHash, HashHex, Grown, Linked, Covers, Computed, TreeHashes, NodeSet;
    ListsFit(pkg, contents);
    tree := new Tree(arena);
    var depth := Log2(|pkg.chunks|) + 1;
    var calculatehash := HashChunk(pkg, contents);
    ghost var leaves := pkg.FileHashes(contents)[..LeafCount(pkg)];
    ghost var sub := RecursiveTree(arena, depth, 1, tree.root, 0, calculatehash, 0, leaves);
    GrownIsLinked(sub, leaves);
    RootListed(sub, tree.root);
    tree.Layout := sub;
  }

  lemma RootListed(sub: seq<TreeNode?>, root: TreeNode)
    requires sub != [] && sub[0] == root
    ensures root in NodeSet(sub)
  {
  }

  /** The tree part of add_package: hash the chunks, grow the tree over them, label it. */
  method BuildTree(arena: Arena, pkg: Package, contents: Bytes) returns (tree: Tree)
    requires |pkg.chunks| >= 2 && pkg.Loaded() && pkg.InFile(contents)
    modifies arena
    ensures fresh(tree) && tree.Valid() && View(tree.Layout) == TreeOf(pkg, contents)
    ensures |tree.Layout| / 2 < |pkg.chunks|
    ensures arena.live == old(arena.live) + NodeSet(tree.Layout) && arena.freed == old(arena.freed)
    ensures NodeSet(tree.Layout) !! old(arena.live)
  {
    hide *;
    tree := GrowTree(arena, pkg, contents);
    LabelsComplete(tree.Layout, pkg, contents);
    LevelOrderAddHash(tree, pkg);
    NodeSetMembers(tree.Layout);
  }

  lemma NodeSetMembers(nodes: seq<TreeNode>)
    ensures forall x :: x in NodeSet(nodes) ==> exists i :: 0 <= i < |nodes| && nodes[i] == x
  {
  }

  /** isComplete */
  method IsComplete(tree: Tree, nchunks: nat) returns (complete: bool)
    requires tree.Valid() && |tree.Layout| / 2 < nchunks
    ensures complete <==> ReportedComplete(View(tree.Layout))
  {
    var hashes, len := GetMinCompletedHashes(tree, nchunks);
    if len != 1 {
      return false;
    } else {
      return true;
    }
  }

  /** bpkg_get_all_hashes */
  method GetAllHashes(pkg: Package) returns (hashes: array<Hash>)
    ensures fresh(hashes) && hashes[..] == pkg.AllHashes()
  {
    hashes := new Hash[|pkg.hashes| + |pkg.chunks|];
    for i := 0 to |pkg.hashes|
      invariant hashes[..i] == pkg.hashes[..i]
    {
      hashes[i] := pkg.hashes[i];
    }
    var count := |pkg.hashes|;
    for i := 0 to |pkg.chunks|
      invariant count == |pkg.hashes| + i
      invariant forall k :: 0 <= k < count ==> hashes[k] == pkg.AllHashes()[k]
    {
      hashes[count] := pkg.chunks[i].hashvalue;
      count := count + 1;
    }
  }
}
