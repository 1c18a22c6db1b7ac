// The promises of the package format about a data file: what a matching hash vouches for, what the
// completeness report means, and what a change to the file can change.
module FileLaws {
  import opened Sha256Spec
  import opened Sha256SpecChecks
  import opened HeapIndex
  import opened Merkle
  import opened Blocks
  import opened Completeness
  import opened Coherence
  import opened PackageData
  import opened PackageTree
  import opened PkgChk
  import opened PackageLaws

  /** Chunk p of the file hashes to what the package says. */
  predicate ChunkDone(pkg: Package, contents: Bytes, p: nat)
    requires pkg.InFile(contents) && p < |pkg.chunks|
  {
    HashHex(pkg.chunks[p].Slice(contents)) == pkg.chunks[p].hashvalue
  }

  /** A well-formed package: as many chunks as a perfect tree has leaves, and inner hashes made from them. */
  ghost predicate MerklePackage(pkg: Package) {
    Perfect(pkg) && Consistent(HashHex, pkg.AllHashes())
  }

  /** Two different 128-byte inputs with one SHA-256 digest, read off node c of the tree. */
  ghost predicate DigestCollision(t: HashTree, c: nat) {
    CollidesAt(HashHex, t, c)
    && Digest(Pair(t.expected[2 * c + 1], t.expected[2 * c + 2]))
    == Digest(Pair(t.computed[2 * c + 1], t.computed[2 * c + 2]))
  }

  lemma CollisionIsOfDigests(t: HashTree, c: nat)
    requires CollidesAt(HashHex, t, c)
    ensures DigestCollision(t, c)
  {
    EqualHexEqualDigest(Pair(t.expected[2 * c + 1], t.expected[2 * c + 2]),
                        Pair(t.computed[2 * c + 1], t.computed[2 * c + 2]));
  }

  lemma PackageConsistent(pkg: Package, contents: Bytes)
    requires MerklePackage(pkg) && pkg.InFile(contents)
    ensures BothConsistent(HashHex, TreeOf(pkg, contents))
    ensures TreeOf(pkg, contents).expected == pkg.AllHashes()
  {
    ComputedConsistent(pkg, contents);
    assert TreeOf(pkg, contents).expected == pkg.AllHashes();
  }

  lemma LeavesAreChunks(pkg: Package, contents: Bytes, i: nat)
    requires Perfect(pkg) && pkg.InFile(contents)
    ensures var t := TreeOf(pkg, contents);
      t.Leaf(i) <==> |pkg.hashes| <= i < |pkg.hashes| + |pkg.chunks|
    ensures var t := TreeOf(pkg, contents);
      i in t.CompletedLeaves() <==>
        |pkg.hashes| <= i < |pkg.hashes| + |pkg.chunks| && ChunkDone(pkg, contents, i - |pkg.hashes|)
  {
    hide HashHex;
    var t := TreeOf(pkg, contents);
    assert t.Size() == |pkg.hashes| + |pkg.chunks|;
    if t.Leaf(i) {
      LeafLabels(pkg, contents, i - |pkg.hashes|);
    }
  }

  /** Every chunk in the block of node (d, j) is done. */
  predicate BlockDone(pkg: Package, contents: Bytes, h: nat, d: nat, j: nat)
    requires pkg.InFile(contents) && d <= h
  {
    forall p: nat | p < |pkg.chunks| && BlockStart(j, h - d) <= p < BlockStart(j + 1, h - d) ::
      ChunkDone(pkg, contents, p)
  }

  lemma BlockDoneIsLeaves(pkg: Package, contents: Bytes, h: nat, d: nat, j: nat)
    requires Perfect(pkg) && pkg.InFile(contents) && |pkg.chunks| == Pow2(h) && d <= h && j < Pow2(d)
    ensures var t := TreeOf(pkg, contents);
      NodeAt(d, j) < t.Size()
      && (BlockDone(pkg, contents, h, d, j) <==> t.LeavesBelow(NodeAt(d, j)) <= t.CompletedLeaves())
  {
    hide TreeOf, ChunkDone, NodeAt, BlockStart;
    var t, f := TreeOf(pkg, contents), NodeAt(d, j);
    LeavesBelowInterval(t, h, d, j, 0);
    if BlockDone(pkg, contents, h, d, j) {
      forall i | i in t.LeavesBelow(f)
        ensures i in t.CompletedLeaves()
      {
        LeavesBelowInterval(t, h, d, j, i);
        LeavesAreChunks(pkg, contents, i);
      }
    }
    if t.LeavesBelow(f) <= t.CompletedLeaves() {
      forall p: nat | p < |pkg.chunks| && BlockStart(j, h - d) <= p < BlockStart(j + 1, h - d)
        ensures ChunkDone(pkg, contents, p)
      {
        LeavesBelowInterval(t, h, d, j, |pkg.hashes| + p);
        LeavesAreChunks(pkg, contents, |pkg.hashes| + p);
      }
    }
  }

  /**
   * A node's hash matches exactly when all chunks in its block are done, or SHA-256 collides below it. Only the
   * labels below the node have to be made from each other.
   */
  lemma NodeVouches(pkg: Package, contents: Bytes, h: nat, d: nat, j: nat)
    requires Perfect(pkg) && pkg.InFile(contents) && |pkg.chunks| == Pow2(h) && d <= h && j < Pow2(d)
    requires ConsistentBelow(HashHex, pkg.AllHashes(), NodeAt(d, j))
    ensures (TreeOf(pkg, contents).Matches(NodeAt(d, j)) <==> BlockDone(pkg, contents, h, d, j))
         || exists c :: Covers(NodeAt(d, j), c) && DigestCollision(TreeOf(pkg, contents), c)
  {
    hide TreeOf, BlockDone, HashHex;
    var t, f := TreeOf(pkg, contents), NodeAt(d, j);
    LabelsOfPerfect(pkg, contents);
    ComputedConsistent(pkg, contents);
    BlockDoneIsLeaves(pkg, contents, h, d, j);
    MatchIffLeaves(HashHex, t, f);
    if c :| Covers(f, c) && CollidesAt(HashHex, t, c) {
      CollisionIsOfDigests(t, c);
    }
  }

  lemma LabelsOfPerfect(pkg: Package, contents: Bytes)
    requires Perfect(pkg) && pkg.InFile(contents)
    ensures TreeOf(pkg, contents).expected == pkg.AllHashes()
  {
    hide HashHex;
    TreeLeaves(pkg, contents);
  }

  /**
   * In any loaded package: everything below a node matches exactly when the node does and the package's
   * hashes below it are made from each other, or SHA-256 collides below it.
   */
  lemma AllBelowVouched(pkg: Package, contents: Bytes, a: nat)
    requires |pkg.chunks| >= 2 && pkg.Loaded() && pkg.InFile(contents) && a < 2 * LeafCount(pkg) - 1
    ensures var t := TreeOf(pkg, contents);
      ((forall i :: i in t.NodesBelow(a) ==> t.Matches(i)) <==>
        t.Matches(a) && ConsistentBelow(HashHex, t.expected, a))
      || exists c :: Covers(a, c) && DigestCollision(t, c)
  {
    hide TreeOf, HashHex;
    var t := TreeOf(pkg, contents);
    ComputedConsistent(pkg, contents);
    AllBelowMatch(HashHex, t, a);
    if c :| Covers(a, c) && CollidesAt(HashHex, t, c) {
      CollisionIsOfDigests(t, c);
    }
  }

  // ---------- what a hash commits to ----------

  /** The hashes of all nodes over two lists of leaves, side by side. */
  function TwoHashings(h: Hasher, x: seq<Hash>, y: seq<Hash>): HashTree
    requires x != [] && y != []
  {
    HashTree(TreeHashes(h, x), TreeHashes(h, y))
  }

  /** The two lists agree in the leaves below node i. */
  predicate SameLeaves(x: seq<Hash>, y: seq<Hash>, i: nat)
    requires |x| == |y|
  {
    forall p: nat | p < |x| && Covers(i, |x| - 1 + p) :: x[p] == y[p]
  }

  /** A node's hash determines the leaves below it, and is determined by them, or h collides below it. */
  lemma HashCommits(h: Hasher, x: seq<Hash>, y: seq<Hash>, i: nat)
    requires |x| == |y| && i + 1 < 2 * |x|
    ensures (NodeHash(h, x, i) == NodeHash(h, y, i) <==> SameLeaves(x, y, i))
         || exists c :: Covers(i, c) && CollidesAt(h, TwoHashings(h, x, y), c)
  {
    hide NodeHash, HashTree.LeavesBelow, HashTree.CompletedLeaves, CollidesAt;
    var t := TwoHashings(h, x, y);
    TreeHashesConsistent(h, x);
    TreeHashesConsistent(h, y);
    MatchIffLeaves(h, t, i);
    SameLeavesMatch(h, x, y, i);
  }

  lemma SameLeavesMatch(h: Hasher, x: seq<Hash>, y: seq<Hash>, i: nat)
    requires |x| == |y| && i + 1 < 2 * |x|
    ensures var t := TwoHashings(h, x, y);
      SameLeaves(x, y, i) <==> t.LeavesBelow(i) <= t.CompletedLeaves()
  {
    hide NodeHash, HashTree.LeavesBelow, HashTree.CompletedLeaves, TwoHashings, Covers;
    var t := TwoHashings(h, x, y);
    if t.LeavesBelow(i) <= t.CompletedLeaves() {
      forall p: nat | p < |x| && Covers(i, |x| - 1 + p)
        ensures x[p] == y[p]
      {
        LeafOfTwo(h, x, y, i, p);
      }
    }
    if SameLeaves(x, y, i) {
      forall l | l in t.LeavesBelow(i)
        ensures l in t.CompletedLeaves()
      {
        LeafIsLate(h, x, y, i, l);
        LeafOfTwo(h, x, y, i, l + 1 - |x|);
      }
    }
  }

  lemma LeafOfTwo(h: Hasher, x: seq<Hash>, y: seq<Hash>, i: nat, p: nat)
    requires |x| == |y| && p < |x|
    ensures var t, l := TwoHashings(h, x, y), |x| - 1 + p;
      (l in t.LeavesBelow(i) <==> Covers(i, l)) && (l in t.CompletedLeaves() <==> x[p] == y[p])
  {
    var l := |x| - 1 + p;
    assert NodeHash(h, x, l) == x[p] && NodeHash(h, y, l) == y[p];
  }

  lemma LeafIsLate(h: Hasher, x: seq<Hash>, y: seq<Hash>, i: nat, l: nat)
    requires |x| == |y| > 0 && l in TwoHashings(h, x, y).LeavesBelow(i)
    ensures |x| <= l + 1 < 2 * |x|
  {
  }

  /** Below node i both files have the same bytes in every chunk that has a leaf. */
  predicate SameBelow(pkg: Package, one: Bytes, other: Bytes, i: nat)
    requires |pkg.chunks| >= 2 && pkg.InFile(one) && pkg.InFile(other)
  {
    forall p: nat | p < LeafCount(pkg) && Covers(i, LeafCount(pkg) - 1 + p) ::
      pkg.chunks[p].Slice(one) == pkg.chunks[p].Slice(other)
  }

  /** Chunk p differs between the files, with one SHA-256 digest. */
  predicate ChunkCollision(pkg: Package, one: Bytes, other: Bytes, p: nat)
    requires pkg.InFile(one) && pkg.InFile(other)
  {
    p < |pkg.chunks| && pkg.chunks[p].Slice(one) != pkg.chunks[p].Slice(other)
    && Digest(pkg.chunks[p].Slice(one)) == Digest(pkg.chunks[p].Slice(other))
  }

  /** The computed hashes of two files side by side. */
  function TwoFiles(pkg: Package, one: Bytes, other: Bytes): (t: HashTree)
    requires |pkg.chunks| >= 2 && pkg.Loaded() && pkg.InFile(one) && pkg.InFile(other)
  {
    HashTree(TreeOf(pkg, one).computed, TreeOf(pkg, other).computed)
  }

  /** Chunk hashes determine the chunks, or SHA-256 collides. */
  lemma ChunkCommits(pkg: Package, one: Bytes, other: Bytes, p: nat)
    requires pkg.InFile(one) && pkg.InFile(other) && p < |pkg.chunks|
    ensures |pkg.FileHashes(one)| == |pkg.FileHashes(other)| == |pkg.chunks|
    ensures (pkg.FileHashes(one)[p] == pkg.FileHashes(other)[p]
             <==> pkg.chunks[p].Slice(one) == pkg.chunks[p].Slice(other))
         || ChunkCollision(pkg, one, other, p)
  {
    hide HashHex, Digest;
    ListEntries(pkg, one, p);
    ListEntries(pkg, other, p);
    if HashHex(pkg.chunks[p].Slice(one)) == HashHex(pkg.chunks[p].Slice(other)) {
      EqualHexEqualDigest(pkg.chunks[p].Slice(one), pkg.chunks[p].Slice(other));
    }
  }

  lemma LeavesCommit(pkg: Package, one: Bytes, other: Bytes, x: seq<Hash>, y: seq<Hash>, i: nat)
    requires |pkg.chunks| >= 2 && pkg.InFile(one) && pkg.InFile(other)
    requires |pkg.FileHashes(one)| == |pkg.FileHashes(other)| == |pkg.chunks|
    requires x == pkg.FileHashes(one)[..LeafCount(pkg)] && y == pkg.FileHashes(other)[..LeafCount(pkg)]
    ensures (SameLeaves(x, y, i) <==> SameBelow(pkg, one, other, i))
         || exists p :: ChunkCollision(pkg, one, other, p)
  {
    hide HashHex, Digest, ChunkCollision, Package.FileHashes, ChunkInfo.Slice, Covers;
    forall p: nat | p < LeafCount(pkg)
      ensures (x[p] == y[p] <==> pkg.chunks[p].Slice(one) == pkg.chunks[p].Slice(other))
           || ChunkCollision(pkg, one, other, p)
    {
      ChunkCommits(pkg, one, other, p);
    }
  }

  /** Files with one hash at node i have the same bytes below it, and the other way round, or SHA-256 collides. */
  lemma FileCommitted(pkg: Package, one: Bytes, other: Bytes, i: nat)
    requires |pkg.chunks| >= 2 && pkg.Loaded() && pkg.InFile(one) && pkg.InFile(other)
    requires i < 2 * LeafCount(pkg) - 1
    ensures (TreeOf(pkg, one).computed[i] == TreeOf(pkg, other).computed[i] <==> SameBelow(pkg, one, other, i))
         || (exists c :: Covers(i, c) && DigestCollision(TwoFiles(pkg, one, other), c))
         || exists p :: ChunkCollision(pkg, one, other, p)
  {
    hide HashHex, NodeHash, Digest, SameBelow, SameLeaves, ChunkCollision, TreeOf, CollidesAt, DigestCollision;
    var n := LeafCount(pkg);
    ListsFit(pkg, one);
    ListsFit(pkg, other);
    var x, y := pkg.FileHashes(one)[..n], pkg.FileHashes(other)[..n];
    TreeOfIs(pkg, one);
    TreeOfIs(pkg, other);
    assert TwoFiles(pkg, one, other) == TwoHashings(HashHex, x, y);
    HashCommits(HashHex, x, y, i);
    LeavesCommit(pkg, one, other, x, y, i);
    if c :| Covers(i, c) && CollidesAt(HashHex, TwoHashings(HashHex, x, y), c) {
      CollisionIsOfDigests(TwoFiles(pkg, one, other), c);
    }
  }

  /**
   * What a download is checked against: where a node matches on the original file, it matches on a
   * copy exactly when the copy has the original's bytes in all chunks below it, or SHA-256 collides.
   */
  lemma MatchMeansOriginal(pkg: Package, original: Bytes, copy: Bytes, i: nat)
    requires |pkg.chunks| >= 2 && pkg.Loaded() && pkg.InFile(original) && pkg.InFile(copy)
    requires TreeOf(pkg, original).Matches(i)
    ensures (TreeOf(pkg, copy).Matches(i) <==> SameBelow(pkg, original, copy, i))
         || (exists c :: Covers(i, c) && DigestCollision(TwoFiles(pkg, original, copy), c))
         || exists p :: ChunkCollision(pkg, original, copy, p)
  {
    hide HashHex, Digest, SameBelow, ChunkCollision, DigestCollision, TwoFiles;
    TreeLeaves(pkg, original);
    TreeLeaves(pkg, copy);
    FileCommitted(pkg, original, copy, i);
  }

  // ---------- the queries against each other ----------

  /** Two different 128-byte inputs with one SHA-256 digest, read off the labels below nodes i and j. */
  ghost predicate LabelDigestsCollide(s: seq<Hash>, i: nat, j: nat) {
    LabelsCollide(HashHex, s, i, j)
    && Digest(Pair(s[2 * i + 1], s[2 * i + 2])) == Digest(Pair(s[2 * j + 1], s[2 * j + 2]))
  }

  /** Expanding the minimal set lists the correct chunks of the file, each as often as there are such chunks. */
  predicate ExpandsToChunks(pkg: Package, contents: Bytes)
    requires |pkg.chunks| >= 2 && pkg.Loaded() && pkg.InFile(contents)
  {
    var t := TreeOf(pkg, contents);
    multiset(ExpandAll(t, t.Listing(t.Topmost()))) == multiset(CompletedChunks(pkg, contents, 0))
  }

  /**
   * The two chunk queries agree exactly when each topmost node's hash first occurs in the package on its
   * own level, unless SHA-256 collides in the tree or, for one direction, among the hashes of the package.
   */
  lemma PackageQueriesCohere(pkg: Package, contents: Bytes)
    requires MerklePackage(pkg) && pkg.InFile(contents)
    ensures ExpandsToChunks(pkg, contents) ==>
      FirstsOnLevel(TreeOf(pkg, contents)) || exists c :: DigestCollision(TreeOf(pkg, contents), c)
    ensures FirstsOnLevel(TreeOf(pkg, contents)) ==>
      ExpandsToChunks(pkg, contents) || (exists c :: DigestCollision(TreeOf(pkg, contents), c))
      || exists i, j :: LabelDigestsCollide(pkg.AllHashes(), i, j)
  {
    hide TreeOf, HashHex, HashTree.Topmost, HashTree.CompletedLeaves, ExpandAll, FirstsOnLevel, CompletedChunks;
    var t, s := TreeOf(pkg, contents), pkg.AllHashes();
    PackageConsistent(pkg, contents);
    QueriesCohere(HashHex, t, Log2(|pkg.chunks|));
    CompletedIsFilter(pkg, contents);
    if c :| CollidesAt(HashHex, t, c) {
      CollisionIsOfDigests(t, c);
    } else if i, j :| LabelsCollide(HashHex, s, i, j) {
      LabelCollisionIsOfDigests(s, i, j);
    }
  }

  lemma LabelCollisionIsOfDigests(s: seq<Hash>, i: nat, j: nat)
    requires LabelsCollide(HashHex, s, i, j)
    ensures LabelDigestsCollide(s, i, j)
  {
    EqualHexEqualDigest(Pair(s[2 * i + 1], s[2 * i + 2]), Pair(s[2 * j + 1], s[2 * j + 2]));
  }

  /** Where all hashes of the package are different both hold: no label is repeated, and none collide. */
  lemma DistinctCoheres(pkg: Package, contents: Bytes)
    requires MerklePackage(pkg) && pkg.InFile(contents) && Distinct(pkg.AllHashes())
    ensures FirstsOnLevel(TreeOf(pkg, contents))
    ensures forall i, j :: !LabelDigestsCollide(pkg.AllHashes(), i, j)
  {
    hide TreeOf, HashHex, FirstOnLevel, LabelsCollide;
    PackageConsistent(pkg, contents);
    DistinctOnLevel(TreeOf(pkg, contents));
    forall i: nat, j: nat
      ensures !LabelDigestsCollide(pkg.AllHashes(), i, j)
    {
      DistinctNotColliding(HashHex, pkg.AllHashes(), i, j);
    }
  }

  /**
   * Asked for the hash of node (d, j), the query answers with that node's block of chunks, in file order,
   * exactly when the hash first occurs on level d, or two hashes of the package collide.
   */
  lemma AnswersWithBlock(pkg: Package, contents: Bytes, h: nat, d: nat, j: nat)
    requires MerklePackage(pkg) && pkg.InFile(contents) && |pkg.chunks| == Pow2(h) && d <= h && j < Pow2(d)
    ensures var t, a := TreeOf(pkg, contents), NodeAt(d, j);
      a < t.Size()
      && (IsChunkBlock(pkg, t.ChunksOf(t.expected[a]), h, d, j) ==> FirstOnLevel(t, a))
      && (FirstOnLevel(t, a) ==>
            IsChunkBlock(pkg, t.ChunksOf(t.expected[a]), h, d, j)
            || exists i, l :: LabelDigestsCollide(pkg.AllHashes(), i, l))
  {
    hide TreeOf, HashHex, NodeAt, FirstOnLevel, BlockStart, HashTree.ChunksOf, HashTree.Listing, LabelsCollide;
    var t, a := TreeOf(pkg, contents), NodeAt(d, j);
    PackageConsistent(pkg, contents);
    LeavesBelowInterval(t, h, d, j, 0);
    BlockListing(t, h, d, j);
    BlockOfPerfect(pkg, t.Listing(t.LeavesBelow(a)), h, d, j);
    ExpandsToEnough(t, h, a);
    if FirstOnLevel(t, a) {
      ExpandsRightOnLevel(HashHex, t, h, a);
      if i, l :| LabelsCollide(HashHex, t.expected, i, l) {
        LabelCollisionIsOfDigests(t.expected, i, l);
      }
    }
  }

  /**
   * For every file that contains the text of two hashes: a well-formed package of four chunks, the third
   * being that text, on which the chunk queries disagree when the fourth chunk is missing. An inner node
   * and a chunk can share a hash without any collision, since both are hashed in the same way.
   */
  lemma TextOfHashesMisleads(contents: Bytes, c0: ChunkInfo, c1: ChunkInfo, c2: ChunkInfo, c3: ChunkInfo)
    returns (pkg: Package)
    requires c0.InFile(contents) && c1.InFile(contents) && c2.InFile(contents) && c3.InFile(contents)
    requires c2.Slice(contents) == Pair(c0.hashvalue, c1.hashvalue) && c2.hashvalue == HashHex(c2.Slice(contents))
    requires c3.hashvalue != HashHex(c3.Slice(contents))
    ensures pkg.chunks == [c0, c1, c2, c3] && MerklePackage(pkg) && pkg.InFile(contents)
    ensures !ExpandsToChunks(pkg, contents) || exists c :: DigestCollision(TreeOf(pkg, contents), c)
  {
    hide HashHex, TreeOf, FirstOnLevel, HashTree.Topmost, ExpandsToChunks;
    pkg := FourChunkPackage(c0, c1, c2, c3);
    var t := TreeOf(pkg, contents);
    PackageConsistent(pkg, contents);
    LeafLabels(pkg, contents, 2);
    LeafLabels(pkg, contents, 3);
    NotFirstOnLevel(t);
    if t.Matches(2) {
      var c := Binding(HashHex, t, 2, 6);
      CollisionIsOfDigests(t, c);
    } else if t.Matches(0) {
      var c := Binding(HashHex, t, 0, 6);
      CollisionIsOfDigests(t, c);
    } else {
      ThirdLeafTopmost(t);
      PackageQueriesCohere(pkg, contents);
    }
  }

  lemma FourChunkPackage(c0: ChunkInfo, c1: ChunkInfo, c2: ChunkInfo, c3: ChunkInfo) returns (pkg: Package)
    ensures pkg.chunks == [c0, c1, c2, c3] && MerklePackage(pkg) && |pkg.hashes| == 3
    ensures |pkg.AllHashes()| == 7 && pkg.AllHashes()[1] == HashHex(Pair(c0.hashvalue, c1.hashvalue))
  {
    hide HashHex;
    var left := HashHex(Pair(c0.hashvalue, c1.hashvalue));
    var right := HashHex(Pair(c2.hashvalue, c3.hashvalue));
    pkg := Package([HashHex(Pair(left, right)), left, right], [c0, c1, c2, c3]);
    var s := pkg.AllHashes();
    assert LeafCount(pkg) == 4 by { Pow2Injective(2, Log2(4)); }
    forall i: nat | i < |s|
      ensures ConsistentAt(HashHex, s, i)
    {
      assert i == 0 || i == 1 || i == 2 || 2 * i + 2 > |s|;
    }
  }

  lemma NotFirstOnLevel(t: HashTree)
    requires t.Size() == 7 && t.expected[5] == t.expected[1]
    ensures !FirstOnLevel(t, 5)
  {
    DepthMonotone(t.FirstWith(t.expected[5], 0), 1);
    assert Depth(5) == 2 && Depth(1) == 1;
  }

  lemma ThirdLeafTopmost(t: HashTree)
    requires t.Size() == 7 && t.Matches(5) && !t.Matches(2) && !t.Matches(0)
    ensures 5 in t.Topmost()
  {
    forall a: nat | a < 5 && Covers(a, 5)
      ensures a == 2 || a == 0
    {
      assert Covers(a, 2);
    }
  }

  lemma {:induction false} NoRepeatsCount(s: seq<Hash>)
    requires forall i, j :: 0 <= i < j < |s| ==> s[i] != s[j]
    ensures forall x :: multiset(s)[x] <= 1
  {
    if s != [] {
      NoRepeatsCount(s[1..]);
      assert s == [s[0]] + s[1..];
      assert s[0] !in s[1..];
    }
  }

  /** With all hashes different the list of correct chunks names none twice. */
  lemma CompletedOnce(pkg: Package, contents: Bytes)
    requires Perfect(pkg) && pkg.InFile(contents) && Distinct(pkg.AllHashes())
    ensures forall x :: multiset(CompletedChunks(pkg, contents, 0))[x] <= 1
  {
    hide HashHex;
    var t := TreeOf(pkg, contents);
    assert t.expected == pkg.AllHashes();
    CompletedIsFilter(pkg, contents);
    ListedOnce(t.expected, t.CompletedLeaves());
  }

  lemma ListedOnce(s: seq<Hash>, v: set<nat>)
    requires Distinct(s)
    ensures forall x :: multiset(Labels(s, Select(v, 0, |s|)))[x] <= 1
  {
    var idx := Select(v, 0, |s|);
    SelectIncreasing(v, 0, |s|);
    forall k | 0 <= k < |idx|
      ensures idx[k] < |s|
    {
      SelectMembers(v, 0, |s|, idx[k]);
    }
    LabelsLength(s, idx);
    NoRepeatsCount(Labels(s, idx));
  }

  // ---------- the completeness report ----------

  /** The chunks that are done are exactly those in the block of node (d, j), which is not the whole file. */
  predicate OnlyBlockDone(pkg: Package, contents: Bytes, h: nat, d: nat, j: nat)
    requires pkg.InFile(contents)
  {
    1 <= d <= h && j < Pow2(d)
    && forall p: nat | p < |pkg.chunks| ::
      ChunkDone(pkg, contents, p) <==> BlockStart(j, h - d) <= p < BlockStart(j + 1, h - d)
  }

  lemma OnlyBlockIsProperBlock(pkg: Package, contents: Bytes, h: nat, d: nat, j: nat)
    requires Perfect(pkg) && pkg.InFile(contents) && |pkg.chunks| == Pow2(h) && 1 <= d <= h && j < Pow2(d)
    ensures OnlyBlockDone(pkg, contents, h, d, j) <==> OneProperBlock(TreeOf(pkg, contents), NodeAt(d, j))
  {
    hide TreeOf, ChunkDone, NodeAt, BlockStart;
    var t, f := TreeOf(pkg, contents), NodeAt(d, j);
    NodeAtNumber(d, j);
    Pow2Monotone(0, d);
    LeavesBelowInterval(t, h, d, j, 0);
    forall i: nat
      ensures i < t.Size() ==> (i in t.LeavesBelow(f) <==>
        |pkg.hashes| + BlockStart(j, h - d) <= i < |pkg.hashes| + BlockStart(j + 1, h - d))
      ensures i in t.CompletedLeaves() <==>
        |pkg.hashes| <= i < |pkg.hashes| + |pkg.chunks| && ChunkDone(pkg, contents, i - |pkg.hashes|)
    {
      if i < t.Size() { LeavesBelowInterval(t, h, d, j, i); }
      LeavesAreChunks(pkg, contents, i);
    }
    BlocksFit(d, j, h);
    if OneProperBlock(t, f) {
      forall p: nat | p < |pkg.chunks|
        ensures ChunkDone(pkg, contents, p) <==> BlockStart(j, h - d) <= p < BlockStart(j + 1, h - d)
      {
        assert |pkg.hashes| + p in t.CompletedLeaves() <==> |pkg.hashes| + p in t.LeavesBelow(f);
      }
    }
  }

  /**
   * The program's report differs from "every chunk is done" exactly when the chunks
   * that are done are those of one proper subtree, or SHA-256 collides in the tree.
   */
  lemma ReportWrongIff(pkg: Package, contents: Bytes, h: nat)
    requires MerklePackage(pkg) && pkg.InFile(contents) && |pkg.chunks| == Pow2(h)
    ensures (ReportedComplete(TreeOf(pkg, contents)) != BlockDone(pkg, contents, h, 0, 0)
             <==> exists d: nat, j: nat :: OnlyBlockDone(pkg, contents, h, d, j))
         || exists c :: DigestCollision(TreeOf(pkg, contents), c)
  {
    hide TreeOf, BlockDone, OnlyBlockDone;
    var t := TreeOf(pkg, contents);
    if !exists c :: DigestCollision(t, c) {
      PackageConsistent(pkg, contents);
      NodeVouches(pkg, contents, h, 0, 0);
      assert t.Matches(0) <==> BlockDone(pkg, contents, h, 0, 0);
      WrongIffOneProperBlock(HashHex, t);
      if c :| CollidesAt(HashHex, t, c) { CollisionIsOfDigests(t, c); }
      if a :| OneProperBlock(t, a) {
        var d, j := AddressOf(a);
        NodeAtNumber(d, j);
        if d > h { Pow2Monotone(h, d); }
        OnlyBlockIsProperBlock(pkg, contents, h, d, j);
      }
      if d: nat, j: nat :| OnlyBlockDone(pkg, contents, h, d, j) {
        assert 1 <= d <= h && j < Pow2(d) by { OnlyBlockRange(pkg, contents, h, d, j); }
        OnlyBlockIsProperBlock(pkg, contents, h, d, j);
      }
    }
  }

  lemma OnlyBlockRange(pkg: Package, contents: Bytes, h: nat, d: nat, j: nat)
    requires pkg.InFile(contents) && OnlyBlockDone(pkg, contents, h, d, j)
    ensures 1 <= d <= h && j < Pow2(d)
  {
  }

  /**
   * When the chunks that are done are those of one proper subtree the minimal query answers with one
   * hash, however many chunks that are, or SHA-256 collides in the tree.
   */
  lemma OnlyBlockListed(pkg: Package, contents: Bytes, h: nat, d: nat, j: nat)
    requires MerklePackage(pkg) && pkg.InFile(contents) && |pkg.chunks| == Pow2(h)
    requires OnlyBlockDone(pkg, contents, h, d, j)
    ensures var t := TreeOf(pkg, contents);
      (NodeAt(d, j) < t.Size() && t.Listing(t.Topmost()) == [t.expected[NodeAt(d, j)]])
      || exists c :: DigestCollision(t, c)
  {
    hide TreeOf, HashHex, OnlyBlockDone, NodeAt;
    var t := TreeOf(pkg, contents);
    if !exists c :: DigestCollision(t, c) {
      PackageConsistent(pkg, contents);
      OnlyBlockRange(pkg, contents, h, d, j);
      OnlyBlockIsProperBlock(pkg, contents, h, d, j);
      if c :| CollidesAt(HashHex, t, c) { CollisionIsOfDigests(t, c); }
      BlockGivesWrong(HashHex, t, NodeAt(d, j));
      SingleListing(t, NodeAt(d, j));
    }
  }

  /** A package whose chunks are all done is reported complete, collisions or not. */
  lemma AllDoneReported(pkg: Package, contents: Bytes)
    requires MerklePackage(pkg) && pkg.InFile(contents)
    requires forall p: nat | p < |pkg.chunks| :: ChunkDone(pkg, contents, p)
    ensures ReportedComplete(TreeOf(pkg, contents))
  {
    hide TreeOf, HashHex, ChunkDone, ReportedComplete, HashTree.LeavesBelow;
    var t := TreeOf(pkg, contents);
    PackageConsistent(pkg, contents);
    forall l | l in t.LeavesBelow(0)
      ensures t.Matches(l)
    {
      LeafBelowIs(t, 0, l);
      LeavesAreChunks(pkg, contents, l);
    }
    MatchesFromLeaves(HashHex, t, 0);
    RootMatchReported(t);
  }

  lemma LeafBelowIs(t: HashTree, a: nat, l: nat)
    requires l in t.LeavesBelow(a)
    ensures t.Leaf(l)
  {
  }

  /** There are two chunks, and only the first is done. */
  predicate FirstOfTwoOnly(pkg: Package, contents: Bytes)
    requires pkg.InFile(contents)
  {
    |pkg.chunks| == 2 && ChunkDone(pkg, contents, 0) && !ChunkDone(pkg, contents, 1)
  }

  /** Such a package is reported complete, collisions or not. */
  lemma FirstOfTwoReported(pkg: Package, contents: Bytes)
    requires Perfect(pkg) && pkg.InFile(contents) && FirstOfTwoOnly(pkg, contents)
    ensures ReportedComplete(TreeOf(pkg, contents))
  {
    hide TreeOf, HashHex, ReportedComplete;
    var t := TreeOf(pkg, contents);
    LeafLabels(pkg, contents, 0);
    LeafLabels(pkg, contents, 1);
    assert t.Matches(1) && !t.Matches(2) && t.Size() == 3;
    if t.Matches(0) {
      RootMatchReported(t);
    } else {
      forall m | t.Matches(m)
        ensures Covers(1, m)
      {
        assert m == 1;
      }
      ReportedIffOneAbove(t);
    }
  }

  /**
   * For every file and any two stretches of it: a package made for the first stretch as it is and for
   * anything else in the place of the second is well formed and reported complete without the second.
   */
  lemma ReportedWithoutSecond(contents: Bytes, c0: ChunkInfo, c1: ChunkInfo) returns (pkg: Package)
    requires c0.InFile(contents) && c0.hashvalue == HashHex(c0.Slice(contents))
    requires c1.InFile(contents) && c1.hashvalue != HashHex(c1.Slice(contents))
    ensures pkg == Package([HashHex(Pair(c0.hashvalue, c1.hashvalue))], [c0, c1])
    ensures MerklePackage(pkg) && pkg.InFile(contents)
    ensures ReportedComplete(TreeOf(pkg, contents)) && !ChunkDone(pkg, contents, 1)
  {
    hide HashHex, TreeOf, ReportedComplete;
    pkg := Package([HashHex(Pair(c0.hashvalue, c1.hashvalue))], [c0, c1]);
    TwoChunkPackage(pkg);
    FirstOfTwoReported(pkg, contents);
  }

  lemma TwoChunkPackage(pkg: Package)
    requires |pkg.chunks| == 2 && |pkg.hashes| == 1
    requires pkg.hashes[0] == HashHex(Pair(pkg.chunks[0].hashvalue, pkg.chunks[1].hashvalue))
    ensures MerklePackage(pkg)
  {
    hide HashHex;
    var s := pkg.AllHashes();
    assert LeafCount(pkg) == 2;
    forall i: nat | i < |s|
      ensures ConsistentAt(HashHex, s, i)
    {
      assert i == 0 || 2 * i + 2 > |s|;
    }
  }

  // ---------- what a change to the file can change ----------

  /** The files differ at most inside the slice of chunk p, which no other chunk overlaps. */
  ghost predicate ChangedOnlyIn(pkg: Package, before: Bytes, after: Bytes, p: nat)
    requires p < |pkg.chunks|
  {
    var c := pkg.chunks[p];
    |before| == |after|
    && (forall k :: 0 <= k < |before| && !(c.offset <= k < c.offset + c.size) ==> before[k] == after[k])
    && forall q :: 0 <= q < |pkg.chunks| && q != p ==>
      var o := pkg.chunks[q]; o.size <= 0 || o.offset + o.size <= c.offset || c.offset + c.size <= o.offset
  }

  lemma OtherSlicesKept(pkg: Package, before: Bytes, after: Bytes, p: nat, q: nat)
    requires pkg.InFile(before) && p < |pkg.chunks| && ChangedOnlyIn(pkg, before, after, p)
    requires q < |pkg.chunks| && q != p
    ensures pkg.InFile(after) && pkg.chunks[q].Slice(after) == pkg.chunks[q].Slice(before)
  {
    assert forall r :: 0 <= r < |pkg.chunks| ==> pkg.chunks[r].InFile(before);
  }

  /** Where the leaf hashes agree below a node, the node hashes agree. */
  lemma {:induction false} NodeHashKept(h: Hasher, a: seq<Hash>, b: seq<Hash>, p: nat, i: nat)
    requires |a| == |b| && i + 1 < 2 * |a| && (forall q :: 0 <= q < |a| && q != p ==> a[q] == b[q])
    requires p < |a| ==> !Covers(i, |a| - 1 + p)
    ensures NodeHash(h, a, i) == NodeHash(h, b, i)
    decreases 2 * |a| - i
  {
    if i + 1 < |a| {
      CoversSplit(i, |a| - 1 + p);
      NodeHashKept(h, a, b, p, 2 * i + 1);
      NodeHashKept(h, a, b, p, 2 * i + 2);
    }
  }

  /** Off the path from the root to leaf p, every node keeps its computed hash and its match decision. */
  lemma ChangeIsLocal(pkg: Package, before: Bytes, after: Bytes, p: nat, i: nat)
    requires |pkg.chunks| >= 2 && pkg.Loaded() && pkg.InFile(before) && p < |pkg.chunks|
    requires ChangedOnlyIn(pkg, before, after, p)
    requires i < 2 * LeafCount(pkg) - 1 && (p < LeafCount(pkg) ==> !Covers(i, LeafCount(pkg) - 1 + p))
    ensures pkg.InFile(after)
    ensures TreeOf(pkg, after).computed[i] == TreeOf(pkg, before).computed[i]
    ensures TreeOf(pkg, after).Matches(i) <==> TreeOf(pkg, before).Matches(i)
  {
    hide HashHex;
    var q: nat := if p == 0 then 1 else 0;
    OtherSlicesKept(pkg, before, after, p, q);
    var n := LeafCount(pkg);
    var a, b := pkg.FileHashes(before)[..n], pkg.FileHashes(after)[..n];
    forall q | 0 <= q < n && q != p
      ensures a[q] == b[q]
    {
      OtherSlicesKept(pkg, before, after, p, q);
    }
    NodeHashKept(HashHex, a, b, p, i);
  }
}
