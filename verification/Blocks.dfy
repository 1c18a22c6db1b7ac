// The leaves below a node, in a tree whose levels are all full: a contiguous block, listed as a slice.
module Blocks {
  import opened Sha256Spec
  import opened HeapIndex
  import opened Merkle

  /** Every level of the tree is full, the leaves being k steps below the root. */
  predicate Full(t: HashTree, k: nat) {
    t.WellFormed() && t.Size() + 1 == 2 * Pow2(k)
  }

  lemma {:induction false} LabelsOfRange(s: seq<Hash>, v: set<nat>, lo: nat, hi: nat)
    requires lo <= hi <= |s| && forall i :: lo <= i < hi ==> i in v
    ensures Labels(s, Select(v, lo, hi)) == s[lo..hi]
    decreases hi - lo
  {
    if lo < hi {
      LabelsOfRange(s, v, lo + 1, hi);
      var rest := Select(v, lo + 1, hi);
      assert ([lo] + rest)[1..] == rest;
      assert s[lo..hi] == [s[lo]] + s[lo + 1..hi];
    }
  }

  /** A set that is an interval is listed as the slice of the labels over that interval. */
  lemma IntervalListing(s: seq<Hash>, v: set<nat>, lo: nat, hi: nat)
    requires lo <= hi <= |s| && forall i: nat :: i < |s| ==> (i in v <==> lo <= i < hi)
    ensures Labels(s, Select(v, 0, |s|)) == s[lo..hi]
  {
    SelectSplit(v, 0, lo, |s|);
    SelectSplit(v, lo, hi, |s|);
    SelectNone(v, 0, lo);
    SelectNone(v, hi, |s|);
    LabelsOfRange(s, v, lo, hi);
    assert [] + (Select(v, lo, hi) + []) == Select(v, lo, hi);
  }

  /** The first chunk of the block of 2^k chunks numbered j. */
  function BlockStart(j: nat, k: nat): nat { j * Pow2(k) }

  /** The leaves below node (d, j) of a perfect tree are an interval of numbers. */
  lemma LeavesBelowInterval(t: HashTree, h: nat, d: nat, j: nat, i: nat)
    requires Full(t, h) && d <= h && j < Pow2(d) && i < t.Size()
    ensures NodeAt(d, j) < t.Size()
    ensures i in t.LeavesBelow(NodeAt(d, j))
       <==> Pow2(h) - 1 + BlockStart(j, h - d) <= i < Pow2(h) - 1 + BlockStart(j + 1, h - d)
  {
    hide BlockStart, Covers, NodeAt;
    NodeAtNumber(d, j);
    if d < h { Pow2Monotone(d, h); }
    if i + 1 >= Pow2(h) {
      LeafCovered(h, d, j, i + 1 - Pow2(h));
    }
  }

  lemma LeafCovered(h: nat, d: nat, j: nat, p: nat)
    requires d <= h && j < Pow2(d) && p < Pow2(h)
    ensures Covers(NodeAt(d, j), Pow2(h) - 1 + p) <==> BlockStart(j, h - d) <= p < BlockStart(j + 1, h - d)
  {
    hide Covers;
    NodeAtNumber(h, p);
    CoversRange(d, j, h - d, p);
  }

  lemma BlocksFit(d: nat, j: nat, h: nat)
    requires d <= h && j < Pow2(d)
    ensures BlockStart(j, h - d) <= BlockStart(j + 1, h - d) <= Pow2(h)
  {
    Pow2Sum(d, h - d);
    MulMonotone(j, j + 1, Pow2(h - d));
    MulMonotone(j + 1, Pow2(d), Pow2(h - d));
  }

  lemma MulMonotone(a: nat, b: nat, m: nat)
    requires a <= b
    ensures a * m <= b * m
  {
  }

  /** The leaves below node (d, j), listed: block j among the last n labels. */
  lemma BlockListing(t: HashTree, h: nat, d: nat, j: nat)
    requires Full(t, h) && d <= h && j < Pow2(d)
    ensures var n, lo, hi := Pow2(h), BlockStart(j, h - d), BlockStart(j + 1, h - d);
      lo <= hi <= n && t.Listing(t.LeavesBelow(NodeAt(d, j))) == t.expected[n - 1 + lo..n - 1 + hi]
  {
    hide BlockStart, NodeAt, HashTree.LeavesBelow;
    var n, lo, hi := Pow2(h), BlockStart(j, h - d), BlockStart(j + 1, h - d);
    BlocksFit(d, j, h);
    forall i: nat | i < t.Size()
      ensures i in t.LeavesBelow(NodeAt(d, j)) <==> n - 1 + lo <= i < n - 1 + hi
    {
      LeavesBelowInterval(t, h, d, j, i);
    }
    IntervalListing(t.expected, t.LeavesBelow(NodeAt(d, j)), n - 1 + lo, n - 1 + hi);
  }

  lemma ChunksOfFirst(t: HashTree, hash: Hash, f: nat)
    requires f < t.Size() && t.FirstWith(hash, 0) == f
    ensures t.ChunksOf(hash) == t.Listing(t.LeavesBelow(f))
  {
  }

  // ---------- nodes by number ----------

  /** The address of node a, whose first part is its depth. */
  lemma NodeAddress(t: HashTree, k: nat, a: nat) returns (d: nat, j: nat)
    requires Full(t, k) && a < t.Size()
    ensures d == Depth(a) <= k && j < Pow2(d) && NodeAt(d, j) == a
    ensures t.Leaf(a) <==> d == k
  {
    d, j := AddressOf(a);
    NodeAtNumber(d, j);
    DepthRange(a);
    if d < Depth(a) { Pow2Monotone(d, Depth(a)); }
    if Depth(a) < d { Pow2Monotone(Depth(a), d); }
    if k < d { Pow2Monotone(k, d); }
    if d < k { Pow2Monotone(d, k); }
  }

  lemma SingleListing(t: HashTree, a: nat)
    requires a < t.Size()
    ensures t.Listing({a}) == [t.expected[a]]
  {
    SelectOnly(a, t.Size());
    assert [a][1..] == [] && Labels(t.expected, [a]) == [t.expected[a]];
  }

  lemma LeafListing(t: HashTree, a: nat)
    requires t.WellFormed() && t.Leaf(a)
    ensures t.Listing(t.LeavesBelow(a)) == [t.expected[a]]
  {
    forall i: nat | i < t.Size() && Covers(a, i)
      ensures i == a
    {
      CoversSplit(a, i);
      forall b: nat | Covers(b, i)
        ensures b <= i
      {
        CoversOrder(b, i);
      }
    }
    assert t.LeavesBelow(a) == {a};
    SingleListing(t, a);
  }

  /** The leaves below an inner node are those below its left child, then those below its right one. */
  lemma InnerListing(t: HashTree, k: nat, a: nat)
    requires Full(t, k) && a < t.Size() && !t.Leaf(a)
    ensures t.Listing(t.LeavesBelow(a))
         == t.Listing(t.LeavesBelow(2 * a + 1)) + t.Listing(t.LeavesBelow(2 * a + 2))
  {
    hide NodeAt, Depth, HashTree.Listing, HashTree.LeavesBelow;
    var d, j := NodeAddress(t, k, a);
    NodeAtChild(d, j, 0);
    NodeAtChild(d, j, 1);
    BlockListing(t, k, d, j);
    BlockListing(t, k, d + 1, 2 * j);
    BlockListing(t, k, d + 1, 2 * j + 1);
    HalfBlocks(j, k - d - 1);
  }

  lemma HalfBlocks(j: nat, m: nat)
    ensures BlockStart(2 * j, m) == BlockStart(j, m + 1)
    ensures BlockStart(2 * j + 1 + 1, m) == BlockStart(j + 1, m + 1)
  {
    DoubleProduct(j, Pow2(m));
    DoubleProduct(j + 1, Pow2(m));
    assert 2 * j * Pow2(m) == 2 * (j * Pow2(m));
    assert (2 * j + 2) * Pow2(m) == 2 * ((j + 1) * Pow2(m));
  }

  /** A node one level higher has twice as many leaves. */
  lemma {:induction false} ListingCount(t: HashTree, k: nat, a: nat)
    requires Full(t, k) && a < t.Size()
    ensures Depth(a) <= k && |t.Listing(t.LeavesBelow(a))| == Pow2(k - Depth(a))
    decreases t.Size() - a
  {
    hide HashTree.Listing, HashTree.LeavesBelow, NodeAt;
    var d, j := NodeAddress(t, k, a);
    if t.Leaf(a) {
      LeafListing(t, a);
    } else {
      ListingCount(t, k, 2 * a + 1);
      ListingCount(t, k, 2 * a + 2);
      InnerListing(t, k, a);
      assert Pow2(k - d) == 2 * Pow2(k - d - 1);
    }
  }
}
