// The queries of src/chk/pkgchk.c. Each walks the tree breadth-first and collects hashes in an array of
// nchunks entries; hashes[..len] is its answer.
module PkgChk {
  import opened Sha256Spec
  import opened HeapIndex
  import opened Merkle
  import opened NodeQueue
  import opened LevelOrder

  // ---------- what the traversals rely on ----------

  lemma {:induction false} LabelsLength(s: seq<Hash>, idx: seq<nat>)
    requires InRange(idx, |s|)
    ensures |Labels(s, idx)| == |idx|
    ensures forall k :: 0 <= k < |idx| ==> Labels(s, idx)[k] == s[idx[k]]
  {
    if idx != [] {
      LabelsLength(s, idx[1..]);
    }
  }

  /** A listing up to node a, grown by node a. */
  lemma ListingStep(s: seq<Hash>, m: set<nat>, a: nat)
    requires a < |s|
    ensures Labels(s, Select(m, 0, a + 1)) == Labels(s, Select(m, 0, a)) + if a in m then [s[a]] else []
  {
    SelectSplit(m, 0, a, a + 1);
    var next := if a in m then [a] else [];
    assert Select(m, a, a + 1) == next + Select(m, a + 1, a + 1) == next;
    LabelsAppend(s, Select(m, 0, a), next);
    assert Labels(s, next) == if a in m then [s[a]] else [];
  }

  /** Nothing is listed between two nodes when nothing there is a member. */
  lemma ListingSkip(s: seq<Hash>, m: set<nat>, a: nat, b: nat)
    requires a <= b && forall i: nat :: a <= i < b ==> i !in m
    ensures Labels(s, Select(m, 0, b)) == Labels(s, Select(m, 0, a))
  {
    SelectSplit(m, 0, a, b);
    SelectNone(m, a, b);
    assert Select(m, 0, a) + [] == Select(m, 0, a);
  }

  /** Leaves are the upper half of the numbers. */
  lemma LeavesCount(t: HashTree, m: set<nat>)
    requires t.WellFormed() && forall i :: i in m ==> t.Leaf(i)
    ensures |m| <= t.Size() / 2 + 1
  {
    var lo := t.Size() / 2;
    LeavesAbove(lo, t.Size(), m);
  }

  lemma {:induction false} LeavesAbove(lo: nat, hi: nat, m: set<nat>)
    requires lo <= hi && forall i :: i in m ==> lo <= i < hi
    ensures |m| <= hi - lo
    decreases hi - lo
  {
    if lo == hi {
      assert m == {};
    } else {
      LeavesAbove(lo + 1, hi, m - {lo});
    }
  }

  /** Capacity: no listing of leaves or of topmost nodes is longer than the number of leaves. */
  lemma TopmostFit(t: HashTree)
    requires t.WellFormed()
    ensures |t.Topmost()| <= t.Size() / 2 + 1
  {
    var leaves := set i: nat | i < t.Size() && t.Leaf(i);
    forall a | a in t.Topmost()
      ensures exists l :: l in leaves && Covers(a, l)
    {
      var l := LeafBelow(t, a);
      assert l in leaves;
    }
    forall a, b, i | a in t.Topmost() && b in t.Topmost() && Covers(a, i) && Covers(b, i)
      ensures a == b
    {
      TopmostApart(t, a, b, i);
    }
    ApartNodesBound(t.Topmost(), leaves);
    LeavesCount(t, leaves);
  }

  /** While a member is still to come, the listing so far has room for it. */
  lemma RoomForOne(s: seq<Hash>, m: set<nat>, a: nat)
    requires a in m && forall i :: i in m ==> i < |s|
    ensures |Labels(s, Select(m, 0, a))| < |m|
  {
    SelectSize(m, |s|);
    SelectSplit(m, 0, a, |s|);
    forall k | 0 <= k < |Select(m, 0, a)|
      ensures Select(m, 0, a)[k] < |s|
    {
      SelectMembers(m, 0, a, Select(m, 0, a)[k]);
    }
    LabelsLength(s, Select(m, 0, a));
    assert Select(m, a, |s|) != [];
  }

  /** hashes[..len] is the listing of the members of m below node a, and m fits into the array. */
  ghost predicate Listed(hashes: array<Hash>, len: nat, s: seq<Hash>, m: set<nat>, a: nat)
    reads hashes
  {
    |m| <= hashes.Length && (forall i :: i in m ==> i < |s|)
    && len <= hashes.Length && hashes[..len] == Labels(s, Select(m, 0, a))
  }

  /** Appending the expected hash of node a. */
  method Append(hashes: array<Hash>, len: nat, hash: Hash, ghost s: seq<Hash>, ghost m: set<nat>, ghost a: nat)
    returns (len': nat)
    requires Listed(hashes, len, s, m, a) && a in m && a < |s| && hash == s[a]
    modifies hashes
    ensures Listed(hashes, len', s, m, a + 1)
  {
    RoomForOne(s, m, a);
    ListingStep(s, m, a);
    hashes[len] := hash;
    len' := len + 1;
  }

  lemma AppendNothing(hashes: array<Hash>, len: nat, s: seq<Hash>, m: set<nat>, a: nat)
    requires Listed(hashes, len, s, m, a) && a !in m && a < |s|
    ensures Listed(hashes, len, s, m, a + 1)
  {
    ListingStep(s, m, a);
  }

  /** What the fields of node a say about the tree as a value. */
  lemma NodeFacts(nodes: seq<TreeNode>, a: nat)
    requires Linked(nodes) && a < |nodes|
    ensures View(nodes).WellFormed() && |View(nodes).expected| == |nodes|
    ensures View(nodes).expected[a] == nodes[a].expected_hash && View(nodes).computed[a] == nodes[a].computed_hash
    ensures View(nodes).Matches(a) <==> nodes[a].computed_hash == nodes[a].expected_hash
    ensures nodes[a].is_leaf <==> View(nodes).Leaf(a)
    ensures nodes[a].is_leaf <==> |nodes| <= 2 * a + 2
    ensures nodes[a].left != null && nodes[a].right != null <==> !nodes[a].is_leaf
  {
    assert NodeLinked(nodes, a);
  }

  /** Passing over the numbers nobody visits: the next node is the one at the front of the queue. */
  lemma SkipToFront(queue: Queue, hashes: array<Hash>, len: nat, nodes: seq<TreeNode>, s: seq<Hash>,
                    v: set<nat>, m: set<nat>, start: nat, a: nat) returns (b: nat)
    requires |nodes| % 2 == 1 && Closed(v, |nodes|, start) && start <= a <= |nodes| && m <= v
    requires Holds(queue, nodes, Frontier(v, |nodes|, a)) && Listed(hashes, len, s, m, a)
    requires Frontier(v, |nodes|, a) != []
    ensures a <= b < |nodes| && b in v
    ensures Holds(queue, nodes, Frontier(v, |nodes|, b)) && Listed(hashes, len, s, m, b)
  {
    hide Holds, Frontier;
    FrontierFront(v, |nodes|, start, a);
    b := Frontier(v, |nodes|, a)[0];
    ListingSkip(s, m, a, b);
  }

  /** With the queue empty the listing is complete. */
  lemma ListingDone(hashes: array<Hash>, len: nat, s: seq<Hash>, v: set<nat>, m: set<nat>, start: nat, a: nat)
    requires |s| % 2 == 1 && Closed(v, |s|, start) && start <= a <= |s| && m <= v
    requires Listed(hashes, len, s, m, a) && Frontier(v, |s|, a) == []
    ensures hashes[..len] == Labels(s, Select(m, 0, |s|))
    ensures len == |m|
  {
    FrontierFront(v, |s|, start, a);
    ListingSkip(s, m, a, |s|);
    SelectSize(m, |s|);
    forall k | 0 <= k < |Select(m, 0, |s|)|
      ensures Select(m, 0, |s|)[k] < |s|
    {
      SelectMembers(m, 0, |s|, Select(m, 0, |s|)[k]);
    }
    LabelsLength(s, Select(m, 0, |s|));
  }

  /** Before the first node is visited nothing is listed. */
  lemma ListingEmpty(hashes: array<Hash>, s: seq<Hash>, m: set<nat>, start: nat)
    requires |m| <= hashes.Length && forall i :: i in m ==> start <= i < |s|
    ensures Listed(hashes, 0, s, m, start)
  {
    SelectNone(m, 0, start);
  }

  // ---------- bpkg_get_min_completed_hashes ----------

  lemma ExposedChildren(t: HashTree, i: nat)
    requires 2 * i + 2 < t.Size()
    ensures t.Exposed(2 * i + 1) <==> t.Exposed(i) && !t.Matches(i)
    ensures t.Exposed(2 * i + 2) <==> t.Exposed(i) && !t.Matches(i)
  {
    forall c | c == 2 * i + 1 || c == 2 * i + 2
      ensures t.Exposed(c) <==> t.Exposed(i) && !t.Matches(i)
    {
      forall a: nat
        ensures a < c && Covers(a, c) <==> Covers(a, i)
      {
        if Covers(a, i) { CoversOrder(a, i); }
      }
    }
  }

  /** The minimal query visits the exposed nodes. */
  lemma ExposedClosed(t: HashTree)
    requires t.WellFormed()
    ensures Closed(t.ExposedNodes(), t.Size(), 0) && 0 in t.ExposedNodes()
  {
    forall i: nat | 2 * i + 2 < t.Size()
      ensures 2 * i + 1 in t.ExposedNodes() <==> 2 * i + 2 in t.ExposedNodes()
      ensures 2 * i + 1 in t.ExposedNodes() ==> i in t.ExposedNodes()
    {
      ExposedChildren(t, i);
    }
  }

  lemma MinStep(t: HashTree, a: nat)
    requires t.WellFormed() && a in t.ExposedNodes()
    ensures a < |t.expected| && (a in t.Topmost() <==> t.Matches(a))
    ensures var v, n := t.ExposedNodes(), |t.expected|;
      var q := Frontier(v, n, a);
      q != [] && q[0] == a
      && (t.Matches(a) || t.Leaf(a) ==> Frontier(v, n, a + 1) == q[1..])
      && (!t.Matches(a) && !t.Leaf(a) ==> Frontier(v, n, a + 1) == q[1..] + [2 * a + 1, 2 * a + 2])
  {
    ExposedClosed(t);
    FrontierStep(t.ExposedNodes(), t.Size(), 0, a);
    if !t.Leaf(a) { ExposedChildren(t, a); }
  }

  /** One iteration of the loop of bpkg_get_min_completed_hashes, at node a. */
  method MinOne(queue: Queue, hashes: array<Hash>, len: nat,
                ghost nodes: seq<TreeNode>, ghost t: HashTree, ghost a: nat)
    returns (len': nat)
    requires t.WellFormed() && |t.expected| == |nodes| && a in t.ExposedNodes()
    requires Linked(nodes) && View(nodes) == t && Holds(queue, nodes, Frontier(t.ExposedNodes(), |nodes|, a))
    requires Listed(hashes, len, t.expected, t.Topmost(), a) && hashes !in queue.Repr
    modifies queue.Repr, hashes
    ensures fresh(queue.Repr - old(queue.Repr)) && hashes !in queue.Repr
    ensures Linked(nodes) && View(nodes) == t && Holds(queue, nodes, Frontier(t.ExposedNodes(), |nodes|, a + 1))
    ensures Listed(hashes, len', t.expected, t.Topmost(), a + 1)
  {
    hide *;
    MinStep(t, a);
    ghost var q := Frontier(t.ExposedNodes(), |nodes|, a);
    var currentnode := TakeNext(queue, nodes, q);
    NodeFacts(nodes, a);
    if currentnode.computed_hash == currentnode.expected_hash {
      len' := Append(hashes, len, currentnode.expected_hash, t.expected, t.Topmost(), a);
    } else {
      AppendNothing(hashes, len, t.expected, t.Topmost(), a);
      len' := len;
      if !currentnode.is_leaf {
        PushBoth(queue, currentnode, nodes, q[1..], a);
      }
    }
  }

  lemma MinStart(nodes: seq<TreeNode>, hashes: array<Hash>)
    requires Linked(nodes) && |nodes| / 2 < hashes.Length
    ensures var t := View(nodes);
      t.WellFormed() && |t.expected| == |nodes| && |nodes| % 2 == 1
      && Closed(t.ExposedNodes(), |nodes|, 0) && t.Topmost() <= t.ExposedNodes()
      && Frontier(t.ExposedNodes(), |nodes|, 0) == [0] && Listed(hashes, 0, t.expected, t.Topmost(), 0)
  {
    var t := View(nodes);
    ExposedClosed(t);
    TopmostFit(t);
    StartingQueue(t.ExposedNodes(), |nodes|, 0);
    ListingEmpty(hashes, t.expected, t.Topmost(), 0);
  }

  /** The loop of bpkg_get_min_completed_hashes. */
  method MinFrom(root: TreeNode, nchunks: nat, ghost nodes: seq<TreeNode>) returns (hashes: array<Hash>, len: nat)
    requires Linked(nodes) && root == nodes[0] && |nodes| / 2 < nchunks
    ensures fresh(hashes) && hashes.Length == nchunks && len <= nchunks
    ensures hashes[..len] == Labels(View(nodes).expected, Select(View(nodes).Topmost(), 0, |nodes|))
    ensures len == |View(nodes).Topmost()|
  {
    hide *;
    hashes, len := new Hash[nchunks], 0;
    ghost var t, a := View(nodes), 0;
    ghost var v, m := t.ExposedNodes(), t.Topmost();
    MinStart(nodes, hashes);
    var queue := StartAt(root, nodes, 0);
    var empty := false;
    while !empty
      invariant fresh(queue.Repr) && fresh(hashes) && hashes !in queue.Repr
      invariant a <= |nodes| && Linked(nodes) && View(nodes) == t
      invariant Holds(queue, nodes, Frontier(v, |nodes|, a)) && (empty <==> Frontier(v, |nodes|, a) == [])
      invariant Listed(hashes, len, t.expected, m, a)
      decreases |nodes| - a
    {
      a := SkipToFront(queue, hashes, len, nodes, t.expected, v, m, 0, a);
      len := MinOne(queue, hashes, len, nodes, t, a);
      a := a + 1;
      empty := NoneLeft(queue, nodes, Frontier(v, |nodes|, a));
    }
    ListingDone(hashes, len, t.expected, v, m, 0, a);
  }

  /** bpkg_get_min_completed_hashes: the expected hashes of the topmost matching nodes, in level order. */
  method GetMinCompletedHashes(tree: Tree, nchunks: nat) returns (hashes: array<Hash>, len: nat)
    requires tree.Valid() && |tree.Layout| / 2 < nchunks
    ensures fresh(hashes) && len <= hashes.Length == nchunks
    ensures hashes[..len] == View(tree.Layout).Listing(View(tree.Layout).Topmost())
    ensures len == |View(tree.Layout).Topmost()|
  {
    hashes, len := MinFrom(tree.root, nchunks, tree.Layout);
  }

  // ---------- bpkg_get_completed_chunks ----------

  lemma EveryStep(t: HashTree, a: nat)
    requires t.WellFormed() && a < |t.expected|
    ensures var v, n := t.AllNodes(), |t.expected|;
      Closed(v, n, 0) && 0 in v
      && var q := Frontier(v, n, a);
      q != [] && q[0] == a
      && (t.Leaf(a) ==> Frontier(v, n, a + 1) == q[1..])
      && (!t.Leaf(a) ==> Frontier(v, n, a + 1) == q[1..] + [2 * a + 1, 2 * a + 2])
    ensures a in t.CompletedLeaves() <==> t.Leaf(a) && t.Matches(a)
  {
    AllNodesMembers(t);
    FrontierStep(t.AllNodes(), |t.expected|, 0, a);
  }

  /** One iteration of the loop of bpkg_get_completed_chunks, at node a. */
  method CompletedOne(queue: Queue, hashes: array<Hash>, len: nat,
                      ghost nodes: seq<TreeNode>, ghost t: HashTree, ghost a: nat) returns (len': nat)
    requires t.WellFormed() && |t.expected| == |nodes| && a < |nodes|
    requires Linked(nodes) && View(nodes) == t && Holds(queue, nodes, Frontier(t.AllNodes(), |nodes|, a))
    requires Listed(hashes, len, t.expected, t.CompletedLeaves(), a) && hashes !in queue.Repr
    modifies queue.Repr, hashes
    ensures fresh(queue.Repr - old(queue.Repr)) && hashes !in queue.Repr
    ensures Linked(nodes) && View(nodes) == t && Holds(queue, nodes, Frontier(t.AllNodes(), |nodes|, a + 1))
    ensures Listed(hashes, len', t.expected, t.CompletedLeaves(), a + 1)
  {
    hide *;
    EveryStep(t, a);
    ghost var q := Frontier(t.AllNodes(), |nodes|, a);
    var currentnode := TakeNext(queue, nodes, q);
    NodeFacts(nodes, a);
    if currentnode.left != null && currentnode.right != null {
      PushBoth(queue, currentnode, nodes, q[1..], a);
    }
    NodeFacts(nodes, a);
    len' := len;
    if currentnode.is_leaf {
      if currentnode.expected_hash == currentnode.computed_hash {
        len' := Append(hashes, len, currentnode.expected_hash, t.expected, t.CompletedLeaves(), a);
      }
    }
    if !(currentnode.is_leaf && currentnode.expected_hash == currentnode.computed_hash) {
      AppendNothing(hashes, len, t.expected, t.CompletedLeaves(), a);
    }
  }

  lemma CompletedStart(nodes: seq<TreeNode>, hashes: array<Hash>)
    requires Linked(nodes) && |nodes| / 2 < hashes.Length
    ensures var t := View(nodes);
      t.WellFormed() && |t.expected| == |nodes| && |nodes| % 2 == 1
      && Closed(t.AllNodes(), |nodes|, 0) && t.CompletedLeaves() <= t.AllNodes()
      && Frontier(t.AllNodes(), |nodes|, 0) == [0] && Listed(hashes, 0, t.expected, t.CompletedLeaves(), 0)
  {
    var t := View(nodes);
    AllNodesMembers(t);
    LeavesCount(t, t.CompletedLeaves());
    StartingQueue(t.AllNodes(), |nodes|, 0);
    ListingEmpty(hashes, t.expected, t.CompletedLeaves(), 0);
  }

  /** The loop of bpkg_get_completed_chunks. */
  method CompletedFrom(root: TreeNode, nchunks: nat, ghost nodes: seq<TreeNode>) returns (hashes: array<Hash>, len: nat)
    requires Linked(nodes) && root == nodes[0] && |nodes| / 2 < nchunks
    ensures fresh(hashes) && hashes.Length == nchunks && len <= nchunks
    ensures hashes[..len] == Labels(View(nodes).expected, Select(View(nodes).CompletedLeaves(), 0, |nodes|))
    ensures len == |View(nodes).CompletedLeaves()|
  {
    hide *;
    hashes, len := new Hash[nchunks], 0;
    ghost var t, a := View(nodes), 0;
    ghost var v, m := t.AllNodes(), t.CompletedLeaves();
    CompletedStart(nodes, hashes);
    var queue := StartAt(root, nodes, 0);
    var empty := false;
    while !empty
      invariant fresh(queue.Repr) && fresh(hashes) && hashes !in queue.Repr
      invariant a <= |nodes| && Linked(nodes) && View(nodes) == t
      invariant Holds(queue, nodes, Frontier(v, |nodes|, a)) && (empty <==> Frontier(v, |nodes|, a) == [])
      invariant Listed(hashes, len, t.expected, m, a)
      decreases |nodes| - a
    {
      a := SkipToFront(queue, hashes, len, nodes, t.expected, v, m, 0, a);
      len := CompletedOne(queue, hashes, len, nodes, t, a);
      a := a + 1;
      empty := NoneLeft(queue, nodes, Frontier(v, |nodes|, a));
    }
    ListingDone(hashes, len, t.expected, v, m, 0, a);
  }

  /** bpkg_get_completed_chunks: the expected hashes of the matching leaves, in level order. */
  method GetCompletedChunks(tree: Tree, nchunks: nat) returns (hashes: array<Hash>, len: nat)
    requires tree.Valid() && |tree.Layout| / 2 < nchunks
    ensures fresh(hashes) && len <= hashes.Length == nchunks
    ensures hashes[..len] == View(tree.Layout).Listing(View(tree.Layout).CompletedLeaves())
  {
    hashes, len := CompletedFrom(tree.root, nchunks, tree.Layout);
  }

  // ---------- bpkg_get_all_chunk_hashes_from_hash ----------

  /** The first loop: level order up to the first node with the given expected hash. */
  method FindHash(root: TreeNode, hash: Hash, ghost nodes: seq<TreeNode>)
    returns (found: bool, queue: Queue, currentnode: TreeNode, ghost f: nat, ghost q: seq<nat>)
    requires Linked(nodes) && root == nodes[0] && 0 < |nodes|
    ensures fresh(queue.Repr) && Holds(queue, nodes, q)
    ensures f == View(nodes).FirstWith(hash, 0) && f <= |nodes| && (found <==> f < |nodes|)
    ensures found ==> currentnode == nodes[f]
  {
    hide *;
    ghost var t := View(nodes);
    ghost var v := t.AllNodes();
    found, f, q := false, 0, [0];
    currentnode := root;
    SameSize(nodes);
    LabelStart(nodes, t.expected);
    queue := StartAt(root, nodes, 0);
    var empty := false;
    while !empty
      invariant fresh(queue.Repr) && f <= |nodes| && Linked(nodes) && View(nodes) == t
      invariant Holds(queue, nodes, q) && q == Frontier(v, |nodes|, f) && (empty <==> f == |nodes|)
      invariant forall j :: 0 <= j < f ==> t.expected[j] != hash
      decreases |nodes| - f
    {
      EveryStep(t, f);
      currentnode := TakeNext(queue, nodes, q);
      NodeFacts(nodes, f);
      if currentnode.expected_hash == hash {
        found, q := true, q[1..];
        break;
      }
      if !currentnode.is_leaf {
        PushBoth(queue, currentnode, nodes, q[1..], f);
      }
      f := f + 1;
      q := Frontier(v, |nodes|, f);
      QueueEmptyAtEnd(v, |nodes|, f);
      empty := NoneLeft(queue, nodes, q);
    }
    FirstWithIs(t, hash, f);
  }

  lemma SameSize(nodes: seq<TreeNode>)
    requires Linked(nodes)
    ensures |View(nodes).expected| == |nodes| && View(nodes).WellFormed()
    ensures forall i: nat :: i in View(nodes).AllNodes() <==> i < |nodes|
  {
    AllNodesMembers(View(nodes));
  }

  lemma FirstWithIs(t: HashTree, hash: Bytes, f: nat)
    requires f <= |t.expected| && (forall j :: 0 <= j < f ==> t.expected[j] != hash)
    requires f < |t.expected| ==> t.expected[f] == hash
    ensures t.FirstWith(hash, 0) == f
  {
  }

  /** The second loop: throw away what is still queued. */
  method Drain(queue: Queue, ghost nodes: seq<TreeNode>, ghost q: seq<nat>)
    requires Linked(nodes) && Holds(queue, nodes, q)
    modifies queue.Repr
    ensures queue.Repr == old(queue.Repr) && Holds(queue, nodes, [])
    ensures Linked(nodes) && View(nodes) == old(View(nodes))
  {
    hide *;
    ghost var rest := q;
    var empty := NoneLeft(queue, nodes, q);
    while !empty
      invariant queue.Repr == old(queue.Repr) && Holds(queue, nodes, rest) && (empty <==> rest == [])
      invariant Linked(nodes) && View(nodes) == old(View(nodes))
      decreases |rest|
    {
      var dropped := TakeNext(queue, nodes, rest);
      rest := rest[1..];
      empty := NoneLeft(queue, nodes, rest);
    }
  }

  /** Node f is the only one below f with a number up to its children's. */
  lemma BelowNumbers(t: HashTree, f: nat)
    requires f < |t.expected|
    ensures f in t.NodesBelow(f)
    ensures forall i :: i in t.NodesBelow(f) ==> f <= i < |t.expected|
    ensures forall i: nat :: f < i <= 2 * f ==> i !in t.NodesBelow(f)
  {
    forall i: nat | i in t.NodesBelow(f)
      ensures f <= i && (i == f || i > 2 * f)
    {
      CoversOrder(f, i);
      if i > f { CoversOrder(f, (i - 1) / 2); }
    }
    assert Covers(f, f);
  }

  lemma BelowClosed(t: HashTree, f: nat)
    requires t.WellFormed() && f < |t.expected|
    ensures Closed(t.NodesBelow(f), |t.expected|, f)
    ensures t.LeavesBelow(f) <= t.NodesBelow(f)
  {
    forall i: nat | f <= i && 2 * i + 2 < |t.expected|
      ensures 2 * i + 1 in t.NodesBelow(f) <==> i in t.NodesBelow(f)
      ensures 2 * i + 2 in t.NodesBelow(f) <==> i in t.NodesBelow(f)
    {
      assert Covers(f, 2 * i + 1) <==> Covers(f, i);
      assert Covers(f, 2 * i + 2) <==> Covers(f, i);
    }
  }

  lemma BelowStep(t: HashTree, f: nat, a: nat)
    requires t.WellFormed() && f <= a < |t.expected| && a in t.NodesBelow(f)
    ensures var v, n := t.NodesBelow(f), |t.expected|;
      var q := Frontier(v, n, a);
      q != [] && q[0] == a
      && (t.Leaf(a) ==> Frontier(v, n, a + 1) == q[1..])
      && (!t.Leaf(a) ==> Frontier(v, n, a + 1) == q[1..] + [2 * a + 1, 2 * a + 2])
    ensures a in t.LeavesBelow(f) <==> t.Leaf(a)
  {
    BelowClosed(t, f);
    BelowNumbers(t, f);
    FrontierStep(t.NodesBelow(f), |t.expected|, f, a);
    if !t.Leaf(a) {
      assert Covers(f, 2 * a + 1) <==> Covers(f, a);
    }
  }

  /** One iteration of the last loop of bpkg_get_all_chunk_hashes_from_hash, at node a below node f. */
  method BelowOne(queue: Queue, hashes: array<Hash>, len: nat,
                  ghost nodes: seq<TreeNode>, ghost t: HashTree, ghost f: nat, ghost a: nat) returns (len': nat)
    requires t.WellFormed() && |t.expected| == |nodes| && f <= a < |nodes| && a in t.NodesBelow(f)
    requires Linked(nodes) && View(nodes) == t && Holds(queue, nodes, Frontier(t.NodesBelow(f), |nodes|, a))
    requires Listed(hashes, len, t.expected, t.LeavesBelow(f), a) && hashes !in queue.Repr
    modifies queue.Repr, hashes
    ensures fresh(queue.Repr - old(queue.Repr)) && hashes !in queue.Repr
    ensures Linked(nodes) && View(nodes) == t && Holds(queue, nodes, Frontier(t.NodesBelow(f), |nodes|, a + 1))
    ensures Listed(hashes, len', t.expected, t.LeavesBelow(f), a + 1)
  {
    hide *;
    BelowStep(t, f, a);
    ghost var q := Frontier(t.NodesBelow(f), |nodes|, a);
    var currentnode := TakeNext(queue, nodes, q);
    NodeFacts(nodes, a);
    if currentnode.is_leaf {
      len' := Append(hashes, len, currentnode.expected_hash, t.expected, t.LeavesBelow(f), a);
    } else {
      AppendNothing(hashes, len, t.expected, t.LeavesBelow(f), a);
      len' := len;
      PushBoth(queue, currentnode, nodes, q[1..], a);
    }
  }

  lemma BelowStart(nodes: seq<TreeNode>, hashes: array<Hash>, f: nat)
    requires Linked(nodes) && |nodes| / 2 < hashes.Length && f < |nodes|
    ensures var t := View(nodes);
      t.WellFormed() && |t.expected| == |nodes| && |nodes| % 2 == 1
      && Closed(t.NodesBelow(f), |nodes|, f) && t.LeavesBelow(f) <= t.NodesBelow(f)
      && Frontier(t.NodesBelow(f), |nodes|, f) == [f] && Listed(hashes, 0, t.expected, t.LeavesBelow(f), f)
  {
    var t := View(nodes);
    BelowClosed(t, f);
    BelowNumbers(t, f);
    LeavesCount(t, t.LeavesBelow(f));
    StartingQueue(t.NodesBelow(f), |nodes|, f);
    ListingEmpty(hashes, t.expected, t.LeavesBelow(f), f);
  }

  /** The last loop of bpkg_get_all_chunk_hashes_from_hash: the leaves below node f. */
  method LeavesFrom(queue: Queue, top: TreeNode, hashes: array<Hash>, ghost nodes: seq<TreeNode>, ghost f: nat)
    returns (len: nat)
    requires Linked(nodes) && f < |nodes| && top == nodes[f] && |nodes| / 2 < hashes.Length
    requires Holds(queue, nodes, []) && hashes !in queue.Repr
    modifies queue.Repr, hashes
    ensures Linked(nodes) && View(nodes) == old(View(nodes)) && len <= hashes.Length
    ensures hashes[..len] == Labels(View(nodes).expected, Select(View(nodes).LeavesBelow(f), 0, |nodes|))
  {
    hide *;
    len := 0;
    ghost var t, a := View(nodes), f;
    ghost var v, m := t.NodesBelow(f), t.LeavesBelow(f);
    BelowStart(nodes, hashes, f);
    PushNode(queue, top, nodes, [], f);
    assert [] + [f] == [f];
    var empty := false;
    while !empty
      invariant fresh(queue.Repr - old(queue.Repr)) && hashes !in queue.Repr
      invariant f <= a <= |nodes| && Linked(nodes) && View(nodes) == t
      invariant Holds(queue, nodes, Frontier(v, |nodes|, a)) && (empty <==> Frontier(v, |nodes|, a) == [])
      invariant Listed(hashes, len, t.expected, m, a)
      decreases |nodes| - a
    {
      a := SkipToFront(queue, hashes, len, nodes, t.expected, v, m, f, a);
      len := BelowOne(queue, hashes, len, nodes, t, f, a);
      a := a + 1;
      empty := NoneLeft(queue, nodes, Frontier(v, |nodes|, a));
    }
    ListingDone(hashes, len, t.expected, v, m, f, a);
  }

  /** bpkg_get_all_chunk_hashes_from_hash: the leaf hashes below the first node with the given hash. */
  method GetAllChunkHashesFromHash(tree: Tree, nchunks: nat, hash: Hash) returns (hashes: array<Hash>, len: nat)
    requires tree.Valid() && |tree.Layout| / 2 < nchunks
    ensures fresh(hashes) && len <= hashes.Length == nchunks
    ensures hashes[..len] == View(tree.Layout).ChunksOf(hash)
  {
    hashes, len := ChunkHashesFrom(tree.root, nchunks, hash, tree.Layout);
  }

  lemma ChunksOfIs(t: HashTree, hash: Bytes, f: nat)
    requires f == t.FirstWith(hash, 0)
    ensures f == |t.expected| ==> t.ChunksOf(hash) == []
    ensures f < |t.expected| ==> t.ChunksOf(hash) == Labels(t.expected, Select(t.LeavesBelow(f), 0, |t.expected|))
  {
  }

  method ChunkHashesFrom(root: TreeNode, nchunks: nat, hash: Hash, ghost nodes: seq<TreeNode>)
    returns (hashes: array<Hash>, len: nat)
    requires Linked(nodes) && 0 < |nodes| && root == nodes[0] && |nodes| / 2 < nchunks
    ensures fresh(hashes) && len <= hashes.Length == nchunks
    ensures hashes[..len] == View(nodes).ChunksOf(hash)
  {
    hide *;
    hashes, len := new Hash[nchunks], 0;
    ghost var t := View(nodes);
    SameSize(nodes);
    var found, queue, currentnode, f, q := FindHash(root, hash, nodes);
    ChunksOfIs(t, hash, f);
    if !found {
      assert hashes[..len] == [];
      return;
    }
    Drain(queue, nodes, q);
    len := LeavesFrom(queue, currentnode, hashes, nodes, f);
  }
}
