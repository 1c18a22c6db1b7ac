// What the built and labelled tree says about the package and the file, chunk by chunk.
module PackageLaws {
  import opened Sha256Spec
  import opened HeapIndex
  import opened Merkle
  import opened Blocks
  import opened PackageData
  import opened PackageTree
  import opened PkgChk
  import opened NodeQueue
  import opened LevelOrder

  /** The package has as many chunks as a perfect tree has leaves. */
  predicate Perfect(pkg: Package) {
    |pkg.chunks| >= 2 && pkg.Loaded() && LeafCount(pkg) == |pkg.chunks|
  }

  // ---------- the tree and the two lists ----------

  /** Every inner node of the built tree carries the hash of its children's hashes. */
  lemma ComputedConsistent(pkg: Package, contents: Bytes)
    requires |pkg.chunks| >= 2 && pkg.Loaded() && pkg.InFile(contents)
    ensures Consistent(HashHex, TreeOf(pkg, contents).computed)
    ensures var s := TreeOf(pkg, contents).computed;
      forall i: nat {:trigger s[i]} | 2 * i + 2 < |s| ::
        var left: Bytes, right: Bytes := s[2 * i + 1], s[2 * i + 2]; s[i] == HashHex(left + right)
  {
    hide HashHex, TreeOf;
    TreeOfIs(pkg, contents);
    TreeHashesConsistent(HashHex, pkg.FileHashes(contents)[..LeafCount(pkg)]);
    var s := TreeOf(pkg, contents).computed;
    forall i: nat | 2 * i + 2 < |s|
      ensures var left: Bytes, right: Bytes := s[2 * i + 1], s[2 * i + 2]; s[i] == HashHex(left + right)
    {
      assert ConsistentAt(HashHex, s, i);
      PairIsText(s[2 * i + 1], s[2 * i + 2]);
    }
  }

  /** The depth-first address (d, j) and the flat lists name the same node. */
  lemma AddressLabels(pkg: Package, contents: Bytes, h: nat, d: nat, j: nat)
    requires Perfect(pkg) && pkg.InFile(contents) && |pkg.chunks| == Pow2(h) && d <= h && j < Pow2(d)
    ensures var t, i := TreeOf(pkg, contents), NodeAt(d, j);
      i < t.Size()
      && (d < h ==> Pow2(d) - 1 + j < |pkg.hashes| && t.expected[i] == pkg.hashes[Pow2(d) - 1 + j])
      && (d == h ==> t.Leaf(i) && t.expected[i] == pkg.chunks[j].hashvalue
                     && t.computed[i] == HashHex(pkg.chunks[j].Slice(contents)))
  {
    hide HashHex;
    NodeAtNumber(d, j);
    if d < h { Pow2Monotone(d, h); }
    var leaves := pkg.FileHashes(contents)[..LeafCount(pkg)];
    if d == h {
      assert NodeHash(HashHex, leaves, NodeAt(d, j)) == leaves[j];
    }
  }

  /** The leaves: labelled from entry n - 1 of the concatenated lists on, computed from the first n chunks. */
  lemma TreeLeaves(pkg: Package, contents: Bytes)
    requires |pkg.chunks| >= 2 && pkg.Loaded() && pkg.InFile(contents)
    ensures var t, n := TreeOf(pkg, contents), LeafCount(pkg);
      t.Size() == 2 * n - 1 <= |pkg.AllHashes()| && n <= |pkg.FileHashes(contents)|
      && t.expected == pkg.AllHashes()[..2 * n - 1]
      && t.expected[n - 1..] == pkg.AllHashes()[n - 1..2 * n - 1]
      && t.computed[n - 1..] == pkg.FileHashes(contents)[..n]
  {
    hide HashHex;
    TreeOfIs(pkg, contents);
    var n := LeafCount(pkg);
    var t, leaves := TreeOf(pkg, contents), pkg.FileHashes(contents)[..n];
    forall p | 0 <= p < n
      ensures t.computed[n - 1..][p] == leaves[p]
    {
      assert NodeHash(HashHex, leaves, n - 1 + p) == leaves[p];
    }
  }

  /** Chunk p against leaf p, without addresses. */
  lemma LeafLabels(pkg: Package, contents: Bytes, p: nat)
    requires Perfect(pkg) && pkg.InFile(contents) && p < |pkg.chunks|
    ensures var t, i := TreeOf(pkg, contents), |pkg.hashes| + p;
      i < t.Size() && t.Leaf(i) && t.expected[i] == pkg.chunks[p].hashvalue
      && t.computed[i] == HashHex(pkg.chunks[p].Slice(contents))
      && (t.Matches(i) <==> HashHex(pkg.chunks[p].Slice(contents)) == pkg.chunks[p].hashvalue)
  {
    hide HashHex, TreeOf;
    TreeLeaves(pkg, contents);
    var t, n := TreeOf(pkg, contents), LeafCount(pkg);
    assert t.computed[n - 1..][p] == pkg.FileHashes(contents)[p];
    assert t.expected[n - 1 + p] == pkg.ChunkHashes()[p];
  }

  /**
   * The two traversals agree in the heap: the leaf that the recursion gave position p was
   * given the hash of chunk p by the labelling.
   */
  lemma PositionsAgree(tree: Tree, pkg: Package, contents: Bytes, node: TreeNode)
    requires Perfect(pkg) && pkg.InFile(contents) && tree.Valid() && View(tree.Layout) == TreeOf(pkg, contents)
    requires node in tree.Layout && node.is_leaf
    ensures 0 <= node.position < |pkg.chunks|
    ensures node.expected_hash == pkg.chunks[node.position].hashvalue
    ensures node.computed_hash == HashHex(pkg.chunks[node.position].Slice(contents))
  {
    hide HashHex, TreeOf, View, Expected, Computed;
    var nodes := tree.Layout;
    var i: nat :| i < |nodes| && nodes[i] == node;
    NodeFacts(nodes, i);
    assert NodeLinked(nodes, i);
    LeafLabels(pkg, contents, i - |pkg.hashes|);
  }

  predicate LabelsAlign(pkg: Package)
    requires |pkg.chunks| >= 2 && pkg.Loaded()
  {
    var n := LeafCount(pkg);
    forall p | 0 <= p < n :: pkg.AllHashes()[n - 1 + p] == pkg.chunks[p].hashvalue
  }

  ghost predicate AllAlign(n: nat)
    requires n >= 2
  {
    forall pkg: Package | |pkg.chunks| == n && pkg.Loaded() :: LabelsAlign(pkg)
  }

  /** Leaf p is labelled with the hash of chunk p in every package exactly when nchunks is a power of two. */
  lemma AlignIffPowerOfTwo(n: nat)
    requires n >= 2
    ensures AllAlign(n) <==> exists k :: n == Pow2(k)
  {
    if k :| n == Pow2(k) {
      Pow2Injective(Log2(n), k);
    } else {
      var a: Hash, b: Hash := seq(64, i => 0x61), seq(64, i => 0x62);
      var pkg := Package(seq(n - 1, i => a), seq(n, i => ChunkInfo(b, 0, 0)));
      var m := LeafCount(pkg);
      assert m < n;
      assert pkg.AllHashes()[m - 1 + 0] == a && pkg.chunks[0].hashvalue == b;
      assert a[0] != b[0];
      assert !LabelsAlign(pkg);
    }
  }

  /** Reading the labels back in level order gives what bpkg_get_all_hashes lists, as far as the tree goes. */
  lemma ReadBack(pkg: Package, contents: Bytes)
    requires |pkg.chunks| >= 2 && pkg.Loaded() && pkg.InFile(contents)
    ensures var t := TreeOf(pkg, contents);
      t.Listing(t.AllNodes()) == pkg.AllHashes()[..t.Size()]
    ensures TreeOf(pkg, contents).Size() == |pkg.AllHashes()| <==> Perfect(pkg)
  {
    var t := TreeOf(pkg, contents);
    AllNodesMembers(t);
    IntervalListing(t.expected, t.AllNodes(), 0, t.Size());
    assert t.expected[0..t.Size()] == t.expected;
  }

  // ---------- completed chunks ----------

  /** The labels from entry p on that agree with the hash at the same place, in order. */
  function Agreeing(labels: seq<Hash>, hashes: seq<Hash>, p: nat): (s: seq<Hash>)
    requires |labels| == |hashes| && p <= |labels|
    ensures |s| <= |labels| - p
    decreases |labels| - p
  {
    if p == |labels| then []
    else (if labels[p] == hashes[p] then [labels[p]] else []) + Agreeing(labels, hashes, p + 1)
  }

  lemma LabelsOfNone(s: seq<Hash>)
    ensures Labels(s, []) == []
  {
  }

  lemma AgreeingStep(labels: seq<Hash>, hashes: seq<Hash>, p: nat)
    requires |labels| == |hashes| && p < |labels|
    ensures Agreeing(labels, hashes, p)
         == (if labels[p] == hashes[p] then [labels[p]] else []) + Agreeing(labels, hashes, p + 1)
  {
  }

  /** Leaf number p as an entry of the completed listing. */
  lemma LeafEntry(t: HashTree, p: nat)
    requires t.WellFormed() && t.Size() / 2 + p < t.Size()
    ensures var lo := t.Size() / 2;
      t.expected[lo..][p] == t.expected[lo + p]
      && (lo + p in t.CompletedLeaves() <==> t.expected[lo..][p] == t.computed[lo..][p])
  {
  }

  lemma {:induction false} CompletedFromLeaf(t: HashTree, p: nat)
    requires t.WellFormed() && p <= t.Size() / 2 + 1
    ensures var lo := t.Size() / 2;
      Labels(t.expected, Select(t.CompletedLeaves(), lo + p, t.Size()))
      == Agreeing(t.expected[lo..], t.computed[lo..], p)
    decreases t.Size() - p
  {
    hide Labels, HashTree.CompletedLeaves, Agreeing;
    var lo := t.Size() / 2;
    if lo + p < t.Size() {
      CompletedFromLeaf(t, p + 1);
      LeafEntry(t, p);
      LabelsHead(t.expected, t.CompletedLeaves(), lo + p, t.Size());
      AgreeingStep(t.expected[lo..], t.computed[lo..], p);
    } else {
      LabelsOfNone(t.expected);
    }
  }

  /** The breadth-first query over the leaves lists the labels that agree, from left to right. */
  lemma CompletedIsAgreeing(t: HashTree)
    requires t.WellFormed()
    ensures var lo := t.Size() / 2;
      t.Listing(t.CompletedLeaves()) == Agreeing(t.expected[lo..], t.computed[lo..], 0)
  {
    var v, lo := t.CompletedLeaves(), t.Size() / 2;
    CompletedFromLeaf(t, 0);
    SelectSplit(v, 0, lo, t.Size());
    SelectNone(v, 0, lo);
    assert [] + Select(v, lo, t.Size()) == Select(v, lo, t.Size());
  }

  /** For any loaded package: the first n chunks against entries n - 1 to 2n - 2 of the concatenated lists. */
  lemma CompletedOfPackage(pkg: Package, contents: Bytes)
    requires |pkg.chunks| >= 2 && pkg.Loaded() && pkg.InFile(contents)
    ensures var t, n := TreeOf(pkg, contents), LeafCount(pkg);
      2 * n - 1 <= |pkg.AllHashes()| && n <= |pkg.FileHashes(contents)|
      && t.Listing(t.CompletedLeaves())
         == Agreeing(pkg.AllHashes()[n - 1..2 * n - 1], pkg.FileHashes(contents)[..n], 0)
  {
    hide HashHex, TreeOf, HashTree.CompletedLeaves, Agreeing;
    TreeLeaves(pkg, contents);
    CompletedIsAgreeing(TreeOf(pkg, contents));
  }

  /** The chunks from p on whose bytes hash to what the package says, in file order. */
  function CompletedChunks(pkg: Package, contents: Bytes, p: nat): seq<Hash>
    requires pkg.InFile(contents) && p <= |pkg.chunks|
    decreases |pkg.chunks| - p
  {
    if p == |pkg.chunks| then []
    else (if HashHex(pkg.chunks[p].Slice(contents)) == pkg.chunks[p].hashvalue then [pkg.chunks[p].hashvalue] else [])
         + CompletedChunks(pkg, contents, p + 1)
  }

  lemma ListEntries(pkg: Package, contents: Bytes, p: nat)
    requires pkg.InFile(contents) && p < |pkg.chunks|
    ensures |pkg.ChunkHashes()| == |pkg.FileHashes(contents)| == |pkg.chunks|
    ensures pkg.ChunkHashes()[p] == pkg.chunks[p].hashvalue
    ensures pkg.FileHashes(contents)[p] == HashHex(pkg.chunks[p].Slice(contents))
  {
    hide HashHex;
  }

  lemma NothingAfterLast(pkg: Package, contents: Bytes)
    requires pkg.InFile(contents)
    ensures |pkg.ChunkHashes()| == |pkg.FileHashes(contents)| == |pkg.chunks|
    ensures Agreeing(pkg.ChunkHashes(), pkg.FileHashes(contents), |pkg.chunks|) == []
  {
    hide HashHex;
  }

  lemma {:induction false} CompletedChunksAgree(pkg: Package, contents: Bytes, p: nat)
    requires pkg.InFile(contents) && p <= |pkg.chunks|
    ensures CompletedChunks(pkg, contents, p) == Agreeing(pkg.ChunkHashes(), pkg.FileHashes(contents), p)
    decreases |pkg.chunks| - p
  {
    hide HashHex, Agreeing, Package.ChunkHashes, Package.FileHashes, ChunkInfo.Slice;
    if p < |pkg.chunks| {
      CompletedChunksAgree(pkg, contents, p + 1);
      ListEntries(pkg, contents, p);
      AgreeingStep(pkg.ChunkHashes(), pkg.FileHashes(contents), p);
    } else {
      NothingAfterLast(pkg, contents);
    }
  }

  /** What the chunk query answers is the plain filter over the chunks of the file, in file order. */
  predicate QueryIsFilter(pkg: Package, contents: Bytes)
    requires |pkg.chunks| >= 2 && pkg.Loaded() && pkg.InFile(contents)
  {
    var t := TreeOf(pkg, contents);
    t.Listing(t.CompletedLeaves()) == CompletedChunks(pkg, contents, 0)
  }

  lemma CompletedIsFilter(pkg: Package, contents: Bytes)
    requires Perfect(pkg) && pkg.InFile(contents)
    ensures QueryIsFilter(pkg, contents)
  {
    hide HashHex, TreeOf, HashTree.CompletedLeaves, CompletedChunks, Agreeing;
    CompletedOfPackage(pkg, contents);
    CompletedChunksAgree(pkg, contents, 0);
    var n := LeafCount(pkg);
    assert pkg.AllHashes()[n - 1..2 * n - 1] == pkg.ChunkHashes();
    assert pkg.FileHashes(contents)[..n] == pkg.FileHashes(contents);
  }

  ghost predicate AlwaysFilter(n: nat, contents: Bytes)
    requires n >= 2
  {
    forall pkg: Package | |pkg.chunks| == n && pkg.Loaded() && pkg.InFile(contents) :: QueryIsFilter(pkg, contents)
  }

  /** Whatever the file, the chunk query is the filter for all packages of n chunks exactly when n is a power of two. */
  lemma FilterIffPowerOfTwo(n: nat, contents: Bytes)
    requires n >= 2
    ensures AlwaysFilter(n, contents) <==> exists k :: n == Pow2(k)
  {
    hide HashHex, TreeOf, QueryIsFilter;
    if k :| n == Pow2(k) {
      Pow2Injective(Log2(n), k);
      forall pkg: Package | |pkg.chunks| == n && pkg.Loaded() && pkg.InFile(contents)
        ensures QueryIsFilter(pkg, contents)
      {
        CompletedIsFilter(pkg, contents);
      }
    } else {
      var pkg := EmptyChunks(n, contents);
      assert !QueryIsFilter(pkg, contents);
    }
  }

  /** n chunks of no bytes, all labelled correctly; the query cannot list more of them than the tree has leaves. */
  lemma EmptyChunks(n: nat, contents: Bytes) returns (pkg: Package)
    requires n >= 2 && !exists k :: n == Pow2(k)
    ensures |pkg.chunks| == n && pkg.Loaded() && pkg.InFile(contents) && !QueryIsFilter(pkg, contents)
  {
    hide HashHex, TreeOf;
    var empty := HashHex([]);
    pkg := Package(seq(n - 1, i => empty), seq(n, i => ChunkInfo(empty, 0, 0)));
    CompletedOfPackage(pkg, contents);
    AllCompleted(pkg, contents, 0);
    assert LeafCount(pkg) < n;
  }

  lemma {:induction false} AllCompleted(pkg: Package, contents: Bytes, p: nat)
    requires pkg.InFile(contents) && p <= |pkg.chunks|
    requires forall c :: c in pkg.chunks ==> HashHex(c.Slice(contents)) == c.hashvalue
    ensures |CompletedChunks(pkg, contents, p)| == |pkg.chunks| - p
    decreases |pkg.chunks| - p
  {
    hide HashHex;
    if p < |pkg.chunks| {
      AllCompleted(pkg, contents, p + 1);
      assert pkg.chunks[p] in pkg.chunks;
    }
  }

  // ---------- the chunks below a node ----------

  /** The answer is block j of 2^(h - d) entries among the last n labels of the tree. */
  predicate IsBlock(pkg: Package, answer: seq<Hash>, h: nat, d: nat, j: nat)
    requires |pkg.chunks| >= 2 && pkg.Loaded() && d <= h
  {
    var n, lo, hi := LeafCount(pkg), BlockStart(j, h - d), BlockStart(j + 1, h - d);
    lo <= hi <= n && answer == pkg.AllHashes()[n - 1 + lo..n - 1 + hi]
  }

  /** The answer is the hashes of block j of 2^(h - d) chunks. */
  predicate IsChunkBlock(pkg: Package, answer: seq<Hash>, h: nat, d: nat, j: nat)
    requires d <= h
  {
    var lo, hi := BlockStart(j, h - d), BlockStart(j + 1, h - d);
    lo <= hi <= |pkg.chunks| && answer == pkg.ChunkHashes()[lo..hi]
  }

  /** In a perfect package the last n labels are the chunk hashes. */
  lemma BlockOfPerfect(pkg: Package, answer: seq<Hash>, h: nat, d: nat, j: nat)
    requires Perfect(pkg) && d <= h && IsBlock(pkg, answer, h, d, j)
    ensures IsChunkBlock(pkg, answer, h, d, j)
  {
    hide BlockStart;
    var n, lo, hi := LeafCount(pkg), BlockStart(j, h - d), BlockStart(j + 1, h - d);
    assert pkg.AllHashes()[n - 1 + lo..n - 1 + hi] == pkg.ChunkHashes()[lo..hi];
  }

  lemma SliceOfPrefix(s: seq<Hash>, t: seq<Hash>, m: nat, a: nat, b: nat)
    requires a <= b <= m <= |s| && t == s[..m]
    ensures t[a..b] == s[a..b]
  {
  }

  /** The query answers with the block that node (d, j) stands for, in order, for any loaded package. */
  lemma ChunksOfIsSlice(pkg: Package, contents: Bytes, hash: Hash, h: nat, d: nat, j: nat)
    requires |pkg.chunks| >= 2 && pkg.Loaded() && pkg.InFile(contents)
    requires LeafCount(pkg) == Pow2(h) && d <= h && j < Pow2(d)
    requires TreeOf(pkg, contents).FirstWith(hash, 0) == NodeAt(d, j)
    ensures IsBlock(pkg, TreeOf(pkg, contents).ChunksOf(hash), h, d, j)
  {
    hide HashHex, TreeOf, BlockStart, NodeAt, HashTree.ChunksOf, HashTree.Listing, HashTree.FirstWith;
    var t, n := TreeOf(pkg, contents), LeafCount(pkg);
    var lo, hi := BlockStart(j, h - d), BlockStart(j + 1, h - d);
    TreeLeaves(pkg, contents);
    LeavesBelowInterval(t, h, d, j, 0);
    ChunksOfFirst(t, hash, NodeAt(d, j));
    BlockListing(t, h, d, j);
    SliceOfPrefix(pkg.AllHashes(), t.expected, 2 * n - 1, n - 1 + lo, n - 1 + hi);
  }

  /** It answers with nothing exactly when no node carries the hash. */
  lemma ChunksOfEmptyIff(t: HashTree, hash: Hash)
    requires t.WellFormed()
    ensures t.ChunksOf(hash) == [] <==> forall i :: 0 <= i < t.Size() ==> t.expected[i] != hash
  {
    var f := t.FirstWith(hash, 0);
    if f < t.Size() {
      var l := LeafBelow(t, f);
      SelectMembers(t.LeavesBelow(f), 0, t.Size(), l);
      var idx := Select(t.LeavesBelow(f), 0, t.Size());
      forall k | 0 <= k < |idx|
        ensures idx[k] < t.Size()
      {
        SelectMembers(t.LeavesBelow(f), 0, t.Size(), idx[k]);
      }
      LabelsLength(t.expected, idx);
    }
  }
}
