// The finished tree, its nodes in breadth-first numbering, and the two traversals of
// src/tree/merkletree.c that visit every node: labelling and freeing.
module LevelOrder {
  import opened Sha256Spec
  import opened HeapIndex
  import opened Merkle
  import opened NodeQueue
  import opened PackageData

  /** Node i of the listing hangs in the tree where number i says. */
  ghost predicate NodeLinked(nodes: seq<TreeNode>, i: nat)
    requires i < |nodes| && |nodes| % 2 == 1
    reads nodes
  {
    && (if 2 * i + 2 < |nodes| then
          !nodes[i].is_leaf && nodes[i].left == nodes[2 * i + 1] && nodes[i].right == nodes[2 * i + 2]
        else
          nodes[i].is_leaf && nodes[i].left == null && nodes[i].right == null
          && nodes[i].position == i - |nodes| / 2)
    && nodes[i].parent == if i == 0 then null else nodes[(i - 1) / 2]
  }

  /** nodes are the nodes of one tree, by number. */
  ghost predicate Linked(nodes: seq<TreeNode>)
    reads nodes
  {
    && |nodes| % 2 == 1
    && (forall i, j :: 0 <= i < j < |nodes| ==> nodes[i] != nodes[j])
    && (forall i: nat {:trigger NodeLinked(nodes, i)} :: i < |nodes| ==> NodeLinked(nodes, i))
  }

  ghost function Expected(nodes: seq<TreeNode>): (s: seq<Hash>)
    reads nodes
    ensures |s| == |nodes| && forall i :: 0 <= i < |nodes| ==> s[i] == nodes[i].expected_hash
  {
    if nodes == [] then [] else [nodes[0].expected_hash] + Expected(nodes[1..])
  }

  ghost function Computed(nodes: seq<TreeNode>): (s: seq<Hash>)
    reads nodes
    ensures |s| == |nodes| && forall i :: 0 <= i < |nodes| ==> s[i] == nodes[i].computed_hash
  {
    if nodes == [] then [] else [nodes[0].computed_hash] + Computed(nodes[1..])
  }

  /** The hashes the nodes carry now. */
  ghost function View(nodes: seq<TreeNode>): HashTree
    reads nodes
  {
    HashTree(Expected(nodes), Computed(nodes))
  }

  class Tree {
    var root: TreeNode
    ghost var Layout: seq<TreeNode>

    ghost predicate Valid()
      reads this, Layout
    {
      Linked(Layout) && Layout[0] == root
    }

    /** initialiseTree */
    constructor (arena: Arena)
      modifies arena
      ensures fresh(root) && arena.live == old(arena.live) + {root} && arena.freed == old(arena.freed)
      ensures root.left == null && root.right == null && root.parent == null && !root.is_leaf
    {
      var node := arena.Create();
      root := node;
      Layout := [];
    }
  }

  // ---------- one step of a level-order traversal ----------

  ghost predicate InRange(idx: seq<nat>, n: nat) {
    forall k :: 0 <= k < |idx| ==> idx[k] < n
  }

  /** The nodes with the given numbers. */
  ghost function At(nodes: seq<TreeNode>, idx: seq<nat>): seq<TreeNode>
    requires InRange(idx, |nodes|)
  {
    seq(|idx|, k requires 0 <= k < |idx| => nodes[idx[k]])
  }

  /** The queue is in order, holds the nodes numbered q, and shares nothing with the tree. */
  ghost predicate Holds(queue: Queue, nodes: seq<TreeNode>, q: seq<nat>)
    reads queue, queue.Repr
  {
    queue.Valid() && InRange(q, |nodes|) && queue.Contents == At(nodes, q)
    && forall i :: 0 <= i < |nodes| ==> nodes[i] !in queue.Repr
  }

  /** A queue with just node a in it. */
  method StartAt(node: TreeNode, ghost nodes: seq<TreeNode>, ghost a: nat) returns (queue: Queue)
    requires a < |nodes| && node == nodes[a]
    ensures fresh(queue.Repr) && Holds(queue, nodes, [a])
  {
    queue := new Queue();
    queue.Push(node);
  }

  method NoneLeft(queue: Queue, ghost nodes: seq<TreeNode>, ghost q: seq<nat>) returns (empty: bool)
    requires Holds(queue, nodes, q)
    ensures empty <==> q == []
  {
    empty := queue.Empty();
  }

  method TakeNext(queue: Queue, ghost nodes: seq<TreeNode>, ghost q: seq<nat>) returns (currentnode: TreeNode)
    requires Linked(nodes) && q != [] && Holds(queue, nodes, q)
    modifies queue.Repr
    ensures queue.Repr == old(queue.Repr) && Holds(queue, nodes, q[1..])
    ensures currentnode == nodes[q[0]] && currentnode !in queue.Repr
    ensures Linked(nodes) && View(nodes) == old(View(nodes))
  {
    hide Linked, Expected, Computed;
    currentnode := queue.Pop();
  }

  method PushNode(queue: Queue, node: TreeNode, ghost nodes: seq<TreeNode>, ghost q: seq<nat>, ghost a: nat)
    requires Linked(nodes) && a < |nodes| && node == nodes[a] && Holds(queue, nodes, q)
    modifies queue.Repr
    ensures fresh(queue.Repr - old(queue.Repr)) && Holds(queue, nodes, q + [a])
    ensures Linked(nodes) && View(nodes) == old(View(nodes))
  {
    hide Linked, Expected, Computed;
    queue.Push(node);
    assert At(nodes, q + [a]) == At(nodes, q) + [nodes[a]];
  }

  /** Queueing both children of an inner node. */
  method PushBoth(queue: Queue, currentnode: TreeNode, ghost nodes: seq<TreeNode>, ghost q: seq<nat>, ghost a: nat)
    requires Linked(nodes) && 2 * a + 2 < |nodes| && currentnode == nodes[a] && Holds(queue, nodes, q)
    modifies queue.Repr
    ensures fresh(queue.Repr - old(queue.Repr)) && Holds(queue, nodes, q + [2 * a + 1, 2 * a + 2])
    ensures Linked(nodes) && View(nodes) == old(View(nodes))
  {
    hide View, Expected, Computed, Holds;
    assert NodeLinked(nodes, a);
    PushNode(queue, currentnode.left, nodes, q, 2 * a + 1);
    assert NodeLinked(nodes, a);
    PushNode(queue, currentnode.right, nodes, q + [2 * a + 1], 2 * a + 2);
    assert q + [2 * a + 1] + [2 * a + 2] == q + [2 * a + 1, 2 * a + 2];
  }

  /** Queueing the children of node a as they are, each under its own test. */
  method PushPresent(queue: Queue, left: TreeNode?, right: TreeNode?,
                     ghost nodes: seq<TreeNode>, ghost q: seq<nat>, ghost a: nat)
    requires Linked(nodes) && a < |nodes| && Holds(queue, nodes, q)
    requires left == nodes[a].left && right == nodes[a].right
    modifies queue.Repr
    ensures fresh(queue.Repr - old(queue.Repr))
    ensures Holds(queue, nodes, q + Children(|nodes|, a))
    ensures Linked(nodes) && View(nodes) == old(View(nodes))
  {
    hide View, Expected, Computed, Holds;
    assert NodeLinked(nodes, a);
    ghost var inner := 2 * a + 2 < |nodes|;
    ghost var q' := if inner then q + [2 * a + 1] else q;
    if left != null {
      PushNode(queue, left, nodes, q, 2 * a + 1);
    }
    if right != null {
      PushNode(queue, right, nodes, q', 2 * a + 2);
    }
    ghost var pushed := Children(|nodes|, a);
    if inner {
      assert q' + [2 * a + 2] == q + pushed;
    } else {
      assert q == q + pushed;
    }
  }

  // ---------- labelling ----------

  /** The assignment of levelOrderAddHash, which touches neither the links nor any other hash. */
  method AssignExpected(currentnode: TreeNode, hash: Hash, ghost nodes: seq<TreeNode>, ghost a: nat)
    requires Linked(nodes) && a < |nodes| && currentnode == nodes[a]
    modifies currentnode`expected_hash
    ensures Linked(nodes)
    ensures View(nodes) == old(View(nodes)).(expected := old(View(nodes)).expected[a := hash])
  {
    currentnode.expected_hash := hash;
    forall i: nat | i < |nodes|
      ensures NodeLinked(nodes, i)
    {
      assert old(NodeLinked(nodes, i));
    }
    assert Expected(nodes) == old(Expected(nodes))[a := hash];
    assert Computed(nodes) == old(Computed(nodes));
  }

  /** The same beside the queue, which does not contain tree nodes. */
  method SetExpected(currentnode: TreeNode, hash: Hash, ghost nodes: seq<TreeNode>, ghost a: nat,
                     ghost queue: Queue, ghost q: seq<nat>)
    requires Linked(nodes) && a < |nodes| && currentnode == nodes[a] && Holds(queue, nodes, q)
    modifies currentnode`expected_hash
    ensures Linked(nodes) && Holds(queue, nodes, q) && queue.Repr == old(queue.Repr)
    ensures View(nodes) == old(View(nodes)).(expected := old(View(nodes)).expected[a := hash])
  {
    hide Linked, View, Expected, Computed, NodeLinked;
    AssignExpected(currentnode, hash, nodes, a);
  }

  /** The tree once its first a nodes are labelled. */
  ghost function LabelledTo(t: HashTree, all: seq<Hash>, a: nat): HashTree
    requires a <= t.Size() <= |all|
  {
    t.(expected := all[..a] + t.expected[a..])
  }

  lemma LabelledOneMore(t: HashTree, all: seq<Hash>, a: nat)
    requires a < t.Size() <= |all|
    ensures a < LabelledTo(t, all, a).Size()
    ensures LabelledTo(t, all, a + 1)
         == LabelledTo(t, all, a).(expected := LabelledTo(t, all, a).expected[a := all[a]])
  {
    assert LabelledTo(t, all, a + 1).expected == LabelledTo(t, all, a).expected[a := all[a]];
  }

  /** A traversal that visits every node: node a is next in line, and its children join the queue. */
  lemma EveryNodeNext(v: set<nat>, n: nat, a: nat)
    requires n % 2 == 1 && a < n && forall i: nat :: i in v <==> i < n
    ensures var q := Frontier(v, n, a);
      q != [] && q[0] == a
      && Frontier(v, n, a + 1) == q[1..] + Children(n, a)
  {
    FrontierStep(v, n, 0, a);
  }

  lemma QueueEmptyAtEnd(v: set<nat>, n: nat, a: nat)
    requires n % 2 == 1 && a <= n && forall i: nat :: i in v <==> i < n
    ensures Frontier(v, n, a) == [] <==> a == n
  {
    if a < n { FrontierStep(v, n, 0, a); }
  }

  /** Whose turn it is to be copied: first the inner hashes, then the chunk hashes. */
  method NextHash(pkg: Package, index: nat, index2: nat, ghost a: nat) returns (hash: Hash, i: nat, i2: nat)
    requires index <= |pkg.hashes| && (index < |pkg.hashes| ==> index2 == 0)
    requires index + index2 == a < |pkg.AllHashes()|
    ensures hash == pkg.AllHashes()[a] && i + i2 == a + 1
    ensures i <= |pkg.hashes| && (i < |pkg.hashes| ==> i2 == 0)
  {
    if index < |pkg.hashes| {
      hash := pkg.hashes[index];
      i, i2 := index + 1, index2;
    } else {
      hash := pkg.chunks[index2].hashvalue;
      i, i2 := index, index2 + 1;
    }
  }

  /** levelOrderAddHash: the expected hashes, breadth-first, from the two lists of the package. */
  method LevelOrderAddHash(tree: Tree, pkg: Package)
    requires tree.Valid() && |tree.Layout| <= |pkg.AllHashes()|
    modifies tree.Layout`expected_hash
    ensures tree.Valid()
    ensures View(tree.Layout) == old(View(tree.Layout)).(expected := pkg.AllHashes()[..|tree.Layout|])
  {
    LabelFrom(tree.root, pkg, tree.Layout);
  }

  /** One iteration of levelOrderAddHash: label the node at the front and queue its children. */
  method LabelOne(queue: Queue, hash: Hash, ghost nodes: seq<TreeNode>, ghost v: set<nat>, ghost a: nat,
                  ghost t: HashTree, ghost all: seq<Hash>)
    requires |nodes| % 2 == 1 && a < |nodes| && forall i: nat :: i in v <==> i < |nodes|
    requires t.Size() == |nodes| <= |all| && hash == all[a]
    requires Linked(nodes) && Holds(queue, nodes, Frontier(v, |nodes|, a)) && View(nodes) == LabelledTo(t, all, a)
    modifies nodes`expected_hash, queue.Repr
    ensures fresh(queue.Repr - old(queue.Repr))
    ensures Linked(nodes) && Holds(queue, nodes, Frontier(v, |nodes|, a + 1))
    ensures View(nodes) == LabelledTo(t, all, a + 1)
  {
    hide *;
    EveryNodeNext(v, |nodes|, a);
    LabelledOneMore(t, all, a);
    ghost var q := Frontier(v, |nodes|, a);
    var currentnode := TakeNext(queue, nodes, q);
    SetExpected(currentnode, hash, nodes, a, queue, q[1..]);
    PushPresent(queue, currentnode.left, currentnode.right, nodes, q[1..], a);
  }

  lemma LabelStart(nodes: seq<TreeNode>, all: seq<Hash>)
    requires Linked(nodes) && |nodes| <= |all|
    ensures |nodes| % 2 == 1 && View(nodes).Size() == |nodes|
    ensures var v, t := View(nodes).AllNodes(), View(nodes);
      (forall i: nat :: i in v <==> i < |nodes|) && Frontier(v, |nodes|, 0) == [0]
      && LabelledTo(t, all, 0) == t && LabelledTo(t, all, |nodes|) == t.(expected := all[..|nodes|])
  {
    AllNodesMembers(View(nodes));
    StartingQueue(View(nodes).AllNodes(), |nodes|, 0);
  }

  /** The loop of levelOrderAddHash. */
  method LabelFrom(root: TreeNode, pkg: Package, ghost nodes: seq<TreeNode>)
    requires Linked(nodes) && 0 < |nodes| <= |pkg.AllHashes()| && root == nodes[0]
    modifies nodes`expected_hash
    ensures Linked(nodes) && View(nodes) == old(View(nodes)).(expected := pkg.AllHashes()[..|nodes|])
  {
    hide *;
    ghost var all, t, a := pkg.AllHashes(), View(nodes), 0;
    ghost var v := t.AllNodes();
    LabelStart(nodes, all);
    var queue := StartAt(root, nodes, 0);
    var index: nat, index2: nat := 0, 0;
    var empty := false;
    while !empty
      invariant fresh(queue.Repr) && a <= |nodes| && Holds(queue, nodes, Frontier(v, |nodes|, a))
      invariant empty <==> a == |nodes|
      invariant index + index2 == a && index <= |pkg.hashes| && (index < |pkg.hashes| ==> index2 == 0)
      invariant Linked(nodes) && View(nodes) == LabelledTo(t, all, a)
      decreases |nodes| - a
    {
      var hash;
      hash, index, index2 := NextHash(pkg, index, index2, a);
      LabelOne(queue, hash, nodes, v, a, t, all);
      a := a + 1;
      QueueEmptyAtEnd(v, |nodes|, a);
      empty := NoneLeft(queue, nodes, Frontier(v, |nodes|, a));
    }
  }

  // ---------- freeing ----------

  /** What is left to free, and what has been freed, when node a is next. */
  ghost predicate FreedTo(arena: Arena, nodes: seq<TreeNode>, a: nat, live: set<TreeNode>, freed: seq<TreeNode>)
    reads arena
  {
    a <= |nodes| && arena.freed == freed + nodes[..a] && (forall i :: a <= i < |nodes| ==> nodes[i] in arena.live)
    && arena.live == live - NodeSet(nodes[..a])
  }

  lemma FreedOneMore(nodes: seq<TreeNode>, a: nat, freed: seq<TreeNode>)
    requires Linked(nodes) && a < |nodes|
    ensures freed + nodes[..a] + [nodes[a]] == freed + nodes[..a + 1]
    ensures NodeSet(nodes[..a + 1]) == NodeSet(nodes[..a]) + {nodes[a]}
    ensures forall i :: a < i < |nodes| ==> nodes[i] != nodes[a]
  {
    assert nodes[..a + 1] == nodes[..a] + [nodes[a]];
  }

  /** One iteration of freeTree: queue the children of the front node, then free it. */
  method FreeOne(queue: Queue, arena: Arena, ghost nodes: seq<TreeNode>, ghost v: set<nat>, ghost a: nat,
                 ghost live: set<TreeNode>, ghost freed: seq<TreeNode>)
    requires |nodes| % 2 == 1 && a < |nodes| && forall i: nat :: i in v <==> i < |nodes|
    requires Linked(nodes) && Holds(queue, nodes, Frontier(v, |nodes|, a)) && FreedTo(arena, nodes, a, live, freed)
    requires arena !in queue.Repr
    modifies queue.Repr, arena
    ensures fresh(queue.Repr - old(queue.Repr))
    ensures Linked(nodes) && Holds(queue, nodes, Frontier(v, |nodes|, a + 1))
    ensures FreedTo(arena, nodes, a + 1, live, freed)
  {
    hide Linked, Holds, Frontier, View, Expected, Computed;
    EveryNodeNext(v, |nodes|, a);
    FreedOneMore(nodes, a, freed);
    ghost var q := Frontier(v, |nodes|, a);
    var currentnode := TakeNext(queue, nodes, q);
    var left := arena.Left(currentnode);
    var right := arena.Right(currentnode);
    PushPresent(queue, left, right, nodes, q[1..], a);
    arena.Free(currentnode);
  }

  /** freeTree: every node is freed exactly once, breadth-first, and none is touched after that. */
  method FreeTree(tree: Tree, arena: Arena)
    requires tree.Valid() && NodeSet(tree.Layout) <= arena.live
    modifies arena
    ensures arena.freed == old(arena.freed) + tree.Layout
    ensures arena.live == old(arena.live) - NodeSet(tree.Layout)
  {
    FreeFrom(tree.root, arena, tree.Layout);
    assert tree.Layout[..|tree.Layout|] == tree.Layout;
  }

  /** The loop of freeTree. */
  method FreeFrom(root: TreeNode, arena: Arena, ghost nodes: seq<TreeNode>)
    requires Linked(nodes) && 0 < |nodes| && root == nodes[0] && FreedTo(arena, nodes, 0, arena.live, arena.freed)
    modifies arena
    ensures FreedTo(arena, nodes, |nodes|, old(arena.live), old(arena.freed))
  {
    hide *;
    ghost var v, a := View(nodes).AllNodes(), 0;
    LabelStart(nodes, Expected(nodes));
    var queue := StartAt(root, nodes, 0);
    var empty := false;
    while !empty
      invariant fresh(queue.Repr) && a <= |nodes| && Linked(nodes) && Holds(queue, nodes, Frontier(v, |nodes|, a))
      invariant empty <==> a == |nodes|
      invariant FreedTo(arena, nodes, a, old(arena.live), old(arena.freed))
      decreases |nodes| - a
    {
      FreeOne(queue, arena, nodes, v, a, old(arena.live), old(arena.freed));
      a := a + 1;
      QueueEmptyAtEnd(v, |nodes|, a);
      empty := NoneLeft(queue, nodes, Frontier(v, |nodes|, a));
    }
  }
}
