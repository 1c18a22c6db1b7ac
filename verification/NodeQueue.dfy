// The tree node, the allocator it comes from, and the linked-list queue of tree nodes that every
// level-order traversal uses.
module NodeQueue {
  import opened Sha256Spec

  class TreeNode {
    var left: TreeNode?
    var right: TreeNode?
    var parent: TreeNode?
    var position: int
    var is_leaf: bool
    var expected_hash: Hash
    var computed_hash: Hash

    /** No links, and whatever was in memory where the hashes and the position will be. */
    constructor ()
      ensures left == null && right == null && parent == null && !is_leaf
    {
      left, right, parent, is_leaf := null, null, null, false;
      position, expected_hash, computed_hash := *, *, *;
    }
  }

  /** The allocator as far as tree nodes go: which are allocated, and which were freed, in order. */
  class Arena {
    var live: set<TreeNode>
    var freed: seq<TreeNode>

    /** createNode */
    method Create() returns (node: TreeNode)
      modifies this
      ensures fresh(node) && live == old(live) + {node} && freed == old(freed)
      ensures node.left == null && node.right == null && node.parent == null && !node.is_leaf
    {
      node := new TreeNode();
      live := live + {node};
    }

    /** Reading a field takes a node that is still allocated. */
    method Left(node: TreeNode) returns (left: TreeNode?)
      requires node in live
      ensures left == node.left
    {
      left := node.left;
    }

    method Right(node: TreeNode) returns (right: TreeNode?)
      requires node in live
      ensures right == node.right
    {
      right := node.right;
    }

    method Free(node: TreeNode)
      requires node in live
      modifies this
      ensures live == old(live) - {node} && freed == old(freed) + [node]
    {
      live := live - {node};
      freed := freed + [node];
    }
  }

  /** The nodes in a listing, which may have gaps. */
  function NodeSet(nodes: seq<TreeNode?>): set<TreeNode> { set x: TreeNode | x in nodes }

  class QueueObject {
    var node: TreeNode
    var next: QueueObject?

    constructor (node: TreeNode)
      ensures this.node == node && next == null
    {
      this.node, next := node, null;
    }
  }

  class Queue {
    var first: QueueObject?
    ghost var Spine: seq<QueueObject>     // the list cells in order
    ghost var Contents: seq<TreeNode>     // what they hold
    ghost var Repr: set<object>

    ghost predicate Valid()
      reads this, Repr
    {
      this in Repr && (forall i :: 0 <= i < |Spine| ==> Spine[i] in Repr)
      && |Spine| == |Contents|
      && first == (if Spine == [] then null else Spine[0])
      && (forall i {:trigger Spine[i].node} :: 0 <= i < |Spine| ==> Spine[i].node == Contents[i])
      && (forall i {:trigger Spine[i].next} :: 0 <= i < |Spine| ==>
        Spine[i].next == if i + 1 < |Spine| then Spine[i + 1] else null)
      && (forall i, j :: 0 <= i < j < |Spine| ==> Spine[i] != Spine[j])
    }

    constructor ()
      ensures Valid() && Contents == [] && fresh(Repr)
    {
      first, Spine, Contents := null, [], [];
      Repr := {this};
    }

    /** queueEmpty */
    method Empty() returns (empty: bool)
      requires Valid()
      ensures empty <==> Contents == []
    {
      empty := first == null;
    }

    /** queuePush: walk to the last cell and link a new one behind it. */
    method Push(node: TreeNode)
      requires Valid()
      modifies Repr
      ensures Valid() && fresh(Repr - old(Repr))
      ensures Contents == old(Contents) + [node]
    {
      var cell := new QueueObject(node);
      if first == null {
        first := cell;
      } else {
        var current := first;
        ghost var k := 0;
        while current.next != null
          invariant 0 <= k < |Spine| && current == Spine[k]
          decreases |Spine| - k
        {
          current := current.next;
          k := k + 1;
        }
        assert k == |Spine| - 1;
        current.next := cell;
      }
      Spine := Spine + [cell];
      Contents := Contents + [node];
      Repr := Repr + {cell};
    }

    /** queuePop */
    method Pop() returns (node: TreeNode?)
      requires Valid()
      modifies Repr
      ensures Valid() && Repr == old(Repr)
      ensures old(Contents) == [] ==> node == null && Contents == []
      ensures old(Contents) != [] ==> node == old(Contents)[0] && Contents == old(Contents)[1..]
    {
      if first == null {
        return null;
      }
      node := first.node;
      if first.next != null {
        first := first.next;
      } else {
        first := null;
      }
      Spine := Spine[1..];
      Contents := Contents[1..];
    }
  }
}
