// The queries against each other: expanding the minimal set should give the completed chunks.
module Coherence {
  import opened Sha256Spec
  import opened HeapIndex
  import opened Merkle
  import opened Blocks

  ghost predicate Distinct(s: seq<Hash>) {
    forall i, j :: 0 <= i < j < |s| ==> s[i] != s[j]
  }

  /** get_all_chunk_hashes_from_hash on each hash of a list in turn. */
  function ExpandAll(t: HashTree, hashes: seq<Hash>): seq<Hash> {
    if hashes == [] then [] else t.ChunksOf(hashes[0]) + ExpandAll(t, hashes[1..])
  }

  function LeavesBelowAll(t: HashTree, idx: seq<nat>): set<nat> {
    if idx == [] then {} else t.LeavesBelow(idx[0]) + LeavesBelowAll(t, idx[1..])
  }

  lemma {:induction false} LeavesBelowAllMember(t: HashTree, idx: seq<nat>, l: nat)
    ensures l in LeavesBelowAll(t, idx) <==> t.Leaf(l) && exists a :: a in idx && Covers(a, l)
  {
    if idx != [] {
      LeavesBelowAllMember(t, idx[1..], l);
      if l in LeavesBelowAll(t, idx[1..]) {
        var a :| a in idx[1..] && Covers(a, l);
        assert a in idx;
      }
      if a :| a in idx && Covers(a, l) {
        assert a == idx[0] || a in idx[1..];
      }
    }
  }

  /** A listing of two disjoint sets holds what the two listings hold. */
  lemma {:induction false} DisjointListing(s: seq<Hash>, v: set<nat>, w: set<nat>, lo: nat, hi: nat)
    requires v !! w
    ensures multiset(Labels(s, Select(v + w, lo, hi)))
         == multiset(Labels(s, Select(v, lo, hi))) + multiset(Labels(s, Select(w, lo, hi)))
    decreases hi - lo
  {
    if lo < hi {
      DisjointListing(s, v, w, lo + 1, hi);
      LabelsHead(s, v + w, lo, hi);
      LabelsHead(s, v, lo, hi);
      LabelsHead(s, w, lo, hi);
    }
  }

  /** Equal labels of inner nodes are made from equal pairs, or they collide. */
  lemma EqualPairs(h: Hasher, s: seq<Hash>, a: nat, b: nat)
    requires Consistent(h, s) && 2 * a + 2 < |s| && 2 * b + 2 < |s| && s[a] == s[b]
    ensures (s[2 * a + 1] == s[2 * b + 1] && s[2 * a + 2] == s[2 * b + 2]) || LabelsCollide(h, s, a, b)
  {
    assert ConsistentAt(h, s, a) && ConsistentAt(h, s, b);
    if Pair(s[2 * a + 1], s[2 * a + 2]) == Pair(s[2 * b + 1], s[2 * b + 2]) {
      SplitPair(s[2 * a + 1], s[2 * a + 2], s[2 * b + 1], s[2 * b + 2]);
    }
  }

  /** Nodes of one level with one label have the same chunk hashes below them, or two labels below collide. */
  lemma {:induction false} EqualLabelsBelow(h: Hasher, t: HashTree, k: nat, a: nat, b: nat)
    requires Full(t, k) && Consistent(h, t.expected) && a < t.Size() && b < t.Size()
    requires Depth(a) == Depth(b) && t.expected[a] == t.expected[b]
    ensures t.Listing(t.LeavesBelow(a)) == t.Listing(t.LeavesBelow(b))
         || exists i, j :: Covers(a, i) && Covers(b, j) && LabelsCollide(h, t.expected, i, j)
    decreases t.Size() - a
  {
    hide HashTree.Listing, HashTree.LeavesBelow, NodeAt, LabelsCollide;
    var _, _ := NodeAddress(t, k, a);
    var _, _ := NodeAddress(t, k, b);
    if t.Leaf(a) {
      LeafListing(t, a);
      LeafListing(t, b);
    } else if LabelsCollide(h, t.expected, a, b) {
      assert Covers(a, a) && Covers(b, b);
    } else {
      EqualPairs(h, t.expected, a, b);
      InnerListing(t, k, a);
      InnerListing(t, k, b);
      EqualLabelsBelow(h, t, k, 2 * a + 1, 2 * b + 1);
      EqualLabelsBelow(h, t, k, 2 * a + 2, 2 * b + 2);
      forall i | Covers(2 * a + 1, i) || Covers(2 * a + 2, i)
        ensures Covers(a, i)
      {
        CoversSplit(a, i);
      }
      forall j | Covers(2 * b + 1, j) || Covers(2 * b + 2, j)
        ensures Covers(b, j)
      {
        CoversSplit(b, j);
      }
    }
  }

  /** The first node in level order with the label of node a is on the level of a. */
  predicate FirstOnLevel(t: HashTree, a: nat)
    requires a < t.Size()
  {
    Depth(t.FirstWith(t.expected[a], 0)) == Depth(a)
  }

  /** Expanding the label of node a lists the leaves below a. */
  predicate ExpandsRight(t: HashTree, a: nat)
    requires a < t.Size()
  {
    t.ChunksOf(t.expected[a]) == t.Listing(t.LeavesBelow(a))
  }

  /** An expansion never lists too little; it lists too much when the label first occurs on a higher level. */
  lemma ExpandsToEnough(t: HashTree, k: nat, a: nat)
    requires Full(t, k) && a < t.Size()
    ensures |t.Listing(t.LeavesBelow(a))| <= |t.ChunksOf(t.expected[a])|
    ensures |t.Listing(t.LeavesBelow(a))| == |t.ChunksOf(t.expected[a])| <==> FirstOnLevel(t, a)
    ensures ExpandsRight(t, a) ==> FirstOnLevel(t, a)
  {
    hide HashTree.Listing, HashTree.LeavesBelow, Depth;
    var f := t.FirstWith(t.expected[a], 0);
    assert f <= a;
    DepthMonotone(f, a);
    ListingCount(t, k, a);
    ListingCount(t, k, f);
    if Depth(f) < Depth(a) { Pow2Monotone(k - Depth(a), k - Depth(f)); }
  }

  /** It is right when the label first occurs on the same level, or two labels collide. */
  lemma ExpandsRightOnLevel(h: Hasher, t: HashTree, k: nat, a: nat)
    requires Full(t, k) && Consistent(h, t.expected) && a < t.Size() && FirstOnLevel(t, a)
    ensures ExpandsRight(t, a) || exists i, j :: LabelsCollide(h, t.expected, i, j)
  {
    hide HashTree.Listing, HashTree.LeavesBelow, Depth, LabelsCollide;
    var f := t.FirstWith(t.expected[a], 0);
    assert f <= a;
    EqualLabelsBelow(h, t, k, f, a);
  }

  /** No two of the nodes have a common descendant. */
  ghost predicate Apart(idx: seq<nat>) {
    forall i, j, l :: 0 <= i < j < |idx| ==> !(Covers(idx[i], l) && Covers(idx[j], l))
  }

  lemma ApartRest(t: HashTree, idx: seq<nat>)
    requires idx != [] && Apart(idx)
    ensures Apart(idx[1..]) && t.LeavesBelow(idx[0]) !! LeavesBelowAll(t, idx[1..])
  {
    var rest := idx[1..];
    assert forall i :: 0 <= i < |rest| ==> rest[i] == idx[i + 1];
    forall l | l in t.LeavesBelow(idx[0])
      ensures l !in LeavesBelowAll(t, rest)
    {
      LeavesBelowAllMember(t, rest, l);
    }
  }

  /** Expanding apart nodes: the leaves below them when all expand right, too many hashes when one expands to more. */
  lemma {:induction false} ExpandApart(t: HashTree, idx: seq<nat>)
    requires Apart(idx)
    requires forall a :: a in idx ==>
      a < t.Size() && |t.Listing(t.LeavesBelow(a))| <= |t.ChunksOf(t.expected[a])|
    ensures var expanded, below := ExpandAll(t, Labels(t.expected, idx)), t.Listing(LeavesBelowAll(t, idx));
      |below| <= |expanded|
      && ((forall a :: a in idx ==> ExpandsRight(t, a)) ==> multiset(expanded) == multiset(below))
      && ((exists a :: a in idx && |t.Listing(t.LeavesBelow(a))| < |t.ChunksOf(t.expected[a])|) ==>
            |below| < |expanded|)
  {
    hide Apart, HashTree.ChunksOf, HashTree.LeavesBelow, LeavesBelowAll, ExpandAll, HashTree.Listing;
    if idx == [] {
      NothingListed(t);
    } else {
      var a, rest := idx[0], idx[1..];
      assert idx == [a] + rest && a in idx;
      assert forall b :: b in idx <==> b == a || b in rest;
      ApartRest(t, idx);
      ExpandApart(t, rest);
      ExpandFirst(t, idx);
      JoinedSize(t.Listing(LeavesBelowAll(t, idx)), t.Listing(t.LeavesBelow(a)), t.Listing(LeavesBelowAll(t, rest)));
    }
  }

  lemma NothingListed(t: HashTree)
    ensures ExpandAll(t, Labels(t.expected, [])) == [] == t.Listing(LeavesBelowAll(t, []))
  {
    SelectNone({}, 0, t.Size());
  }

  lemma JoinedSize(all: seq<Hash>, a: seq<Hash>, b: seq<Hash>)
    requires multiset(all) == multiset(a) + multiset(b)
    ensures |all| == |a| + |b|
  {
    assert |multiset(all)| == |multiset(a)| + |multiset(b)|;
  }

  /** The first of apart nodes, split off on both sides. */
  lemma ExpandFirst(t: HashTree, idx: seq<nat>)
    requires idx != [] && idx[0] < t.Size() && Apart(idx)
    ensures ExpandAll(t, Labels(t.expected, idx))
         == t.ChunksOf(t.expected[idx[0]]) + ExpandAll(t, Labels(t.expected, idx[1..]))
    ensures multiset(t.Listing(LeavesBelowAll(t, idx)))
         == multiset(t.Listing(t.LeavesBelow(idx[0]))) + multiset(t.Listing(LeavesBelowAll(t, idx[1..])))
  {
    hide HashTree.ChunksOf, HashTree.LeavesBelow, Apart;
    var a, rest := idx[0], idx[1..];
    assert Labels(t.expected, idx) == [t.expected[a]] + Labels(t.expected, rest);
    ApartRest(t, idx);
    DisjointListing(t.expected, t.LeavesBelow(a), LeavesBelowAll(t, rest), 0, t.Size());
  }

  lemma TopmostListedApart(t: HashTree, top: seq<nat>)
    requires top == Select(t.Topmost(), 0, t.Size()) && forall a :: a in top ==> a in t.Topmost()
    ensures Apart(top)
  {
    SelectIncreasing(t.Topmost(), 0, t.Size());
    forall i, j, l | 0 <= i < j < |top| && Covers(top[i], l) && Covers(top[j], l)
      ensures false
    {
      TopmostApart(t, top[i], top[j], l);
    }
  }

  /** The topmost nodes in level order: apart, and above exactly the completed leaves up to collisions. */
  lemma TopmostListed(h: Hasher, t: HashTree)
    requires BothConsistent(h, t)
    ensures var top := Select(t.Topmost(), 0, t.Size());
      (forall a :: a in top <==> a in t.Topmost()) && Apart(top)
      && (LeavesBelowAll(t, top) == t.CompletedLeaves() || exists c :: CollidesAt(h, t, c))
  {
    hide Apart;
    var top := Select(t.Topmost(), 0, t.Size());
    forall a
      ensures a in top <==> a in t.Topmost()
    {
      if a in top || a in t.Topmost() { SelectMembers(t.Topmost(), 0, t.Size(), a); }
    }
    TopmostListedApart(t, top);
    TopmostCoversCompleted(h, t);
    if !exists c :: CollidesAt(h, t, c) {
      forall l
        ensures l in LeavesBelowAll(t, top) <==> l in t.CompletedLeaves()
      {
        LeavesBelowAllMember(t, top, l);
      }
    }
  }

  /** Expanding the hashes of the minimal query lists the completed chunks, each as often as the chunk query. */
  predicate QueriesAgree(t: HashTree) {
    multiset(ExpandAll(t, t.Listing(t.Topmost()))) == multiset(t.Listing(t.CompletedLeaves()))
  }

  /** The label of every topmost node first occurs on that node's level. */
  predicate FirstsOnLevel(t: HashTree) {
    forall a | a in t.Topmost() :: FirstOnLevel(t, a)
  }

  /**
   * The two queries agree exactly when the label of every topmost node first occurs on its own level, up to
   * collisions: between expected and computed hashes for either direction, among the expected ones for one.
   */
  lemma QueriesCohere(h: Hasher, t: HashTree, k: nat)
    requires BothConsistent(h, t) && Full(t, k)
    ensures QueriesAgree(t) ==> FirstsOnLevel(t) || exists c :: CollidesAt(h, t, c)
    ensures FirstsOnLevel(t) ==>
      QueriesAgree(t) || (exists c :: CollidesAt(h, t, c)) || exists i, j :: LabelsCollide(h, t.expected, i, j)
  {
    hide FirstOnLevel, ExpandsRight, HashTree.ChunksOf, HashTree.LeavesBelow, HashTree.CompletedLeaves, Apart,
      CollidesAt, LabelsCollide;
    var top := Select(t.Topmost(), 0, t.Size());
    TopmostListed(h, t);
    forall a | a in t.Topmost()
      ensures |t.Listing(t.LeavesBelow(a))| <= |t.ChunksOf(t.expected[a])|
      ensures |t.Listing(t.LeavesBelow(a))| == |t.ChunksOf(t.expected[a])| <==> FirstOnLevel(t, a)
      ensures FirstOnLevel(t, a) ==> ExpandsRight(t, a) || exists i, j :: LabelsCollide(h, t.expected, i, j)
    {
      ExpandsToEnough(t, k, a);
      if FirstOnLevel(t, a) { ExpandsRightOnLevel(h, t, k, a); }
    }
    ExpandApart(t, top);
    EqualSize(ExpandAll(t, Labels(t.expected, top)), t.Listing(t.CompletedLeaves()));
  }

  lemma EqualSize(a: seq<Hash>, b: seq<Hash>)
    ensures multiset(a) == multiset(b) ==> |a| == |b|
  {
    if multiset(a) == multiset(b) { assert |multiset(a)| == |multiset(b)|; }
  }

  /** Labels that are all different do not collide. */
  lemma DistinctNotColliding(h: Hasher, s: seq<Hash>, i: nat, j: nat)
    requires Consistent(h, s) && Distinct(s)
    ensures !LabelsCollide(h, s, i, j)
  {
    if 2 * i + 2 < |s| && 2 * j + 2 < |s| {
      assert ConsistentAt(h, s, i) && ConsistentAt(h, s, j);
    }
  }

  /** Labels that are all different first occur where they are. */
  lemma DistinctOnLevel(t: HashTree)
    requires Distinct(t.expected)
    ensures forall a :: 0 <= a < t.Size() ==> FirstOnLevel(t, a)
  {
    forall a | 0 <= a < t.Size()
      ensures FirstOnLevel(t, a)
    {
      assert t.FirstWith(t.expected[a], 0) == a;
    }
  }
}
