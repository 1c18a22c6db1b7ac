// src/tree/merkletree.c: hashing the chunks, and growing the tree depth-first while hashing it.
module MerkleTree {
  import opened Sha256Spec
  import opened Sha256
  import opened HeapIndex
  import opened Merkle
  import opened NodeQueue
  import opened PackageData

  // ---------- hashChunk ----------

  lemma HashHexIs(m: Bytes)
    ensures Hex(DigestBytes(Digest(m))) == HashHex(m)
  {
  }

  /** The body of the loop of hashChunk: one chunk, read in pieces of SHA256_BFLEN = 1024 bytes. */
  method HashOneChunk(contents: Bytes, c: ChunkInfo) returns (hash: Hash)
    requires c.InFile(contents)
    ensures hash == HashHex(c.Slice(contents))
  {
    hide *;
    SliceBounds(c, contents);
    var data := new ComputeData();
    var offset, datasize := c.offset, c.size;
    while datasize > 0
      invariant data.Valid() && data.chunk_size < 64 && fresh(data) && fresh(data.hcomps) && fresh(data.last_chunk)
      invariant c.size > 0 ==> 0 <= datasize && offset + datasize == c.offset + c.size && c.offset <= offset
      invariant c.size > 0 ==> data.Message == contents[c.offset..offset]
      invariant c.size <= 0 ==> data.Message == [] && datasize == c.size
    {
      var readsize := if datasize < 1024 then datasize else 1024;
      data.Update(contents[offset..offset + readsize]);
      assert contents[c.offset..offset] + contents[offset..offset + readsize] == contents[c.offset..offset + readsize];
      offset := offset + readsize;
      datasize := datasize - readsize;
    }
    data.Finalize();
    var final_hash := new bv8[65];
    data.OutputHex(final_hash);
    HashHexIs(data.Message);
    hash := final_hash[..64];
  }

  /** hashChunk: the hash of every chunk of the file. */
  method HashChunk(pkg: Package, contents: Bytes) returns (hashes: array<Hash>)
    requires pkg.InFile(contents)
    ensures fresh(hashes) && hashes[..] == pkg.FileHashes(contents)
  {
    hide HashHex;
    hashes := new Hash[|pkg.chunks|];
    for i := 0 to |pkg.chunks|
      invariant forall p :: 0 <= p < i ==> hashes[p] == pkg.FileHashes(contents)[p]
    {
      var hash := HashOneChunk(contents, pkg.chunks[i]);
      hashes[i] := hash;
    }
  }

  // ---------- computeParentHash and recursiveTree ----------

  /** computeParentHash: hash the two children's hashes into the parent. */
  method ComputeParentHash(currentnode: TreeNode)
    requires currentnode.parent != null
    requires currentnode.parent.left != null && currentnode.parent.right != null
    modifies currentnode.parent`computed_hash
    ensures var left: Bytes, right: Bytes :=
        old(currentnode.parent.left.computed_hash), old(currentnode.parent.right.computed_hash);
      currentnode.parent.computed_hash == HashHex(left + right)
  {
    hide HashHex, Digest, DigestBytes, Hex, Pad, HashBlocks;
    var parent := currentnode.parent;
    var left: Bytes, right: Bytes := parent.left.computed_hash, parent.right.computed_hash;
    var combinedhash := left + right;
    var data := new ComputeData();
    data.Update(combinedhash);
    data.Finalize();
    var hexbuf := new bv8[64];
    data.OutputHex(hexbuf);
    assert combinedhash == [] + combinedhash;
    HashHexIs(combinedhash);
    assert hexbuf[..] == hexbuf[..64];
    parent.computed_hash := hexbuf[..];
  }

  /** Some nodes of a tree by number, null where the number is not covered. */
  type Layer = seq<TreeNode?>

  /** Node i of a tree with the given leaves has the right children, flag, position and hash. */
  ghost predicate NodeDone(sub: Layer, leaves: seq<Hash>, i: nat)
    requires |sub| + 1 == 2 * |leaves| && i < |sub| && sub[i] != null
    reads sub
  {
    && sub[i].computed_hash == NodeHash(HashHex, leaves, i)
    && if i + 1 < |leaves| then
      !sub[i].is_leaf && sub[2 * i + 1] != null && sub[2 * i + 2] != null
      && sub[i].left == sub[2 * i + 1] && sub[i].right == sub[2 * i + 2]
    else
      sub[i].is_leaf && sub[i].left == null && sub[i].right == null && sub[i].position == i + 1 - |leaves|
  }

  ghost predicate ParentDone(sub: Layer, i: nat)
    requires i < |sub| && sub[i] != null
    reads sub
  {
    i > 0 && sub[(i - 1) / 2] != null && sub[i].parent == sub[(i - 1) / 2]
  }

  /** sub holds distinct nodes at the numbers covered by r, and only there. */
  ghost predicate Numbered(sub: Layer, r: nat) {
    && (forall i: nat :: i < |sub| ==> (sub[i] != null <==> Covers(r, i)))
    && (forall i, j :: 0 <= i < j < |sub| && sub[i] != null ==> sub[i] != sub[j])
  }

  /** The nodes below number r of a tree with the given leaves: linked, in place and hashed. */
  ghost predicate Grown(sub: Layer, r: nat, leaves: seq<Hash>)
    reads sub
  {
    && |sub| + 1 == 2 * |leaves| && Numbered(sub, r)
    && (forall i: nat {:trigger NodeDone(sub, leaves, i)} :: i < |sub| && sub[i] != null ==> NodeDone(sub, leaves, i))
    && (forall i: nat {:trigger ParentDone(sub, i)} :: i < |sub| && i != r && sub[i] != null ==> ParentDone(sub, i))
  }

  ghost function Join(sub1: Layer, sub2: Layer, node: TreeNode, r: nat): (sub: Layer)
    requires |sub1| == |sub2|
    ensures |sub| == |sub1|
    ensures forall i: nat :: i < |sub| ==>
      sub[i] == if i == r then node else if sub1[i] != null then sub1[i] else sub2[i]
  {
    seq(|sub1|, i requires 0 <= i < |sub1| => if i == r then node else if sub1[i] != null then sub1[i] else sub2[i])
  }

  /**
   * recursiveTree. Node currentnode has number r; its own hash is written by the call on
   * its right child, and it writes its parent's when it is a right child.
   */
  method RecursiveTree(arena: Arena, depth: nat, currentdepth: nat, currentnode: TreeNode, position: nat,
                       hash: array<Hash>, ghost r: nat, ghost leaves: seq<Hash>)
    returns (ghost sub: Layer)
    requires 1 <= currentdepth <= depth && position < Pow2(currentdepth - 1)
    requires r + 1 == Pow2(currentdepth - 1) + position
    requires |leaves| == Pow2(depth - 1) <= hash.Length && leaves == hash[..|leaves|]
    requires currentnode.left == null && currentnode.right == null && !currentnode.is_leaf
    requires currentdepth == depth ==> currentnode.parent != null      // dereferenced without a check
    requires currentnode.parent != currentnode
    requires IsRightChild(currentnode) ==> LeftIsReady(currentnode, r, leaves)
    requires currentnode in arena.live
    modifies currentnode, arena
    modifies (if currentnode.parent == null then {} else {currentnode.parent})`computed_hash
    ensures Grown(sub, r, leaves) && r < |sub| && |sub| + 1 == 2 * |leaves| && sub[r] == currentnode
    ensures currentnode.computed_hash == NodeHash(HashHex, leaves, r)
    ensures forall i :: 0 <= i < |sub| && sub[i] != null && sub[i] != currentnode ==> fresh(sub[i])
    ensures arena.live == old(arena.live) + NodeSet(sub) && arena.freed == old(arena.freed)
    ensures currentnode.parent == old(currentnode.parent)
    ensures IsRightChild(currentnode) ==>
      0 < r && currentnode.parent.computed_hash == NodeHash(HashHex, leaves, (r - 1) / 2)
    decreases depth - currentdepth, 1
  {
    hide NodeHash, HashHex, Covers, Grown, Numbered, Pow2, NodeSet;
    NumberInTree(depth, currentdepth, position);
    if currentdepth != depth {
      sub := GrowChildren(arena, depth, currentdepth, currentnode, position, hash, r, leaves);
      if currentnode.parent != null {
        if currentnode.parent.right == currentnode {
          FinishParent(currentnode, r, leaves);
        }
      }
    } else {
      currentnode.is_leaf := true;
      currentnode.position := position;
      currentnode.computed_hash := hash[position];
      sub := seq(2 * |leaves| - 1, i => if i == r then currentnode else null);
      LeafGrown(sub, currentnode, r, leaves);
      OneNode(sub, currentnode, r);
      if currentnode.parent.right == currentnode {
        FinishParent(currentnode, r, leaves);
      }
    }
  }

  /** The part of recursiveTree that creates the two children and recurses into them, left first. */
  method GrowChildren(arena: Arena, depth: nat, currentdepth: nat, currentnode: TreeNode, position: nat,
                      hash: array<Hash>, ghost r: nat, ghost leaves: seq<Hash>)
    returns (ghost sub: Layer)
    requires 1 <= currentdepth < depth && position < Pow2(currentdepth - 1)
    requires r + 1 == Pow2(currentdepth - 1) + position
    requires |leaves| == Pow2(depth - 1) <= hash.Length && leaves == hash[..|leaves|]
    requires !currentnode.is_leaf && currentnode in arena.live
    modifies currentnode, arena
    ensures Grown(sub, r, leaves) && r < |sub| && |sub| + 1 == 2 * |leaves| && sub[r] == currentnode
    ensures currentnode.computed_hash == NodeHash(HashHex, leaves, r)
    ensures forall i :: 0 <= i < |sub| && sub[i] != null && sub[i] != currentnode ==> fresh(sub[i])
    ensures arena.live == old(arena.live) + NodeSet(sub) && arena.freed == old(arena.freed)
    ensures currentnode.parent == old(currentnode.parent)
    decreases depth - currentdepth, 0
  {
    hide NodeHash, HashHex, Covers, Grown, Numbered, Pow2, NodeSet;
    NumberInTree(depth, currentdepth, position);
    CreateChildren(arena, currentnode);
    ghost var left, right := currentnode.left, currentnode.right;
    ghost var sub1 :=
      RecursiveTree(arena, depth, currentdepth + 1, currentnode.left, position * 2, hash, 2 * r + 1, leaves);
    ghost var sub2 :=
      RecursiveTree(arena, depth, currentdepth + 1, currentnode.right, position * 2 + 1, hash, 2 * r + 2, leaves);
    JoinGrown(sub1, sub2, currentnode, r, leaves);
    sub := Join(sub1, sub2, currentnode, r);
    LiveAfter(old(arena.live), sub1, sub2, currentnode, left, right);
  }

  /** Linking two new nodes below currentnode. */
  method CreateChildren(arena: Arena, currentnode: TreeNode)
    modifies currentnode`left, currentnode`right, arena
    ensures var left, right := currentnode.left, currentnode.right;
      left != null && right != null && left != right && fresh({left, right})
      && left.left == null && left.right == null && !left.is_leaf && left.parent == currentnode
      && right.left == null && right.right == null && !right.is_leaf && right.parent == currentnode
      && arena.live == old(arena.live) + {left} + {right} && arena.freed == old(arena.freed)
  {
    currentnode.left := arena.Create();
    currentnode.left.parent := currentnode;
    currentnode.right := arena.Create();
    currentnode.right.parent := currentnode;
  }

  /** What is allocated after both recursive calls. */
  lemma LiveAfter(live: set<TreeNode>, sub1: Layer, sub2: Layer, node: TreeNode, left: TreeNode, right: TreeNode)
    requires node in live && left in sub1 && right in sub2
    ensures live + {left} + {right} + NodeSet(sub1) + NodeSet(sub2) == live + (NodeSet(sub1) + NodeSet(sub2) + {node})
  {
  }

  /** computeParentHash once both children carry their final hashes. */
  method FinishParent(currentnode: TreeNode, ghost r: nat, ghost leaves: seq<Hash>)
    requires IsRightChild(currentnode) && LeftIsReady(currentnode, r, leaves)
    requires currentnode.computed_hash == NodeHash(HashHex, leaves, r)
    modifies currentnode.parent`computed_hash
    ensures currentnode.parent.computed_hash == NodeHash(HashHex, leaves, (r - 1) / 2)
  {
    hide HashHex, HashTree.Matches;
    ComputeParentHash(currentnode);
    ghost var p := (r - 1) / 2;
    assert 2 * p + 1 == r - 1 && p + 1 < |leaves|;
  }

  predicate IsRightChild(node: TreeNode)
    reads node, node.parent
  {
    node.parent != null && node.parent.right == node
  }

  /** The left sibling of right child number r carries its final hash. */
  ghost predicate LeftIsReady(node: TreeNode, r: nat, leaves: seq<Hash>)
    requires IsRightChild(node)
    reads node, node.parent, if node.parent == null then null else node.parent.left
  {
    var left := node.parent.left;
    left != null && left != node && r > 0 && r % 2 == 0 && r + 1 < 2 * |leaves|
    && left.computed_hash == NodeHash(HashHex, leaves, r - 1)
  }

  /** Where the node at a depth and position stands among the 2 * Pow2(depth - 1) - 1 nodes. */
  lemma NumberInTree(depth: nat, currentdepth: nat, position: nat)
    requires 1 <= currentdepth <= depth && position < Pow2(currentdepth - 1)
    ensures var r, n := Pow2(currentdepth - 1) + position - 1, Pow2(depth - 1);
      if currentdepth < depth then r + 1 < n && Pow2(currentdepth) == 2 * Pow2(currentdepth - 1)
      else r + 1 == n + position && r + 1 < 2 * n
  {
    if currentdepth < depth {
      Pow2Monotone(currentdepth - 1, depth - 1);
    }
  }

  /** A leaf is a grown tree. */
  lemma LeafGrown(sub: Layer, node: TreeNode, r: nat, leaves: seq<Hash>)
    requires |sub| + 1 == 2 * |leaves| && |leaves| <= r + 1 <= |sub|
    requires forall i :: 0 <= i < |sub| ==> sub[i] == if i == r then node else null
    requires node.is_leaf && node.left == null && node.right == null && node.position == r + 1 - |leaves|
    requires node.computed_hash == leaves[r + 1 - |leaves|]
    ensures Grown(sub, r, leaves) && node.computed_hash == NodeHash(HashHex, leaves, r)
  {
    forall i: nat | i < |sub|
      ensures Covers(r, i) <==> i == r
    {
      if i > r && Covers(r, i) { CoversOrder(r, (i - 1) / 2); }
    }
  }

  /** Two grown subtrees that share no node. */
  ghost predicate Apart(sub1: Layer, sub2: Layer) {
    forall i, j :: 0 <= i < |sub1| && 0 <= j < |sub2| && sub1[i] != null ==> sub1[i] != sub2[j]
  }

  lemma CoversChildren(r: nat, i: nat)
    ensures Covers(r, i) <==> i == r || Covers(2 * r + 1, i) || Covers(2 * r + 2, i)
    ensures !(Covers(2 * r + 1, i) && Covers(2 * r + 2, i))
    ensures Covers(2 * r + 1, i) || Covers(2 * r + 2, i) ==> i > r
  {
    CoversSplit(r, i);
    CoversApart(r, i);
    if Covers(2 * r + 1, i) { CoversOrder(2 * r + 1, i); }
    if Covers(2 * r + 2, i) { CoversOrder(2 * r + 2, i); }
  }

  lemma JoinNumbered(sub1: Layer, sub2: Layer, node: TreeNode, r: nat)
    requires |sub1| == |sub2| && r < |sub1|
    requires Numbered(sub1, 2 * r + 1) && Numbered(sub2, 2 * r + 2)
    requires Apart(sub1, sub2) && node !in sub1 && node !in sub2
    ensures Numbered(Join(sub1, sub2, node, r), r)
    ensures sub1[r] == null && sub2[r] == null
    ensures forall i: nat :: i < |sub1| && sub1[i] != null ==> sub2[i] == null && i > r
    ensures forall i: nat :: i < |sub2| && sub2[i] != null ==> sub1[i] == null && i > r
  {
    hide Covers;
    forall i: nat | i < |sub1|
      ensures Covers(r, i) <==> i == r || sub1[i] != null || sub2[i] != null
      ensures (sub1[i] == null || sub2[i] == null) && (sub1[i] != null || sub2[i] != null ==> i > r)
    {
      CoversChildren(r, i);
    }
  }

  /** A listing with one node. */
  lemma OneNode(sub: Layer, node: TreeNode, r: nat)
    requires r < |sub| && forall i :: 0 <= i < |sub| ==> sub[i] == if i == r then node else null
    ensures NodeSet(sub) == {node}
  {
    assert sub[r] == node;
  }

  lemma JoinNodes(sub1: Layer, sub2: Layer, node: TreeNode, r: nat)
    requires |sub1| == |sub2| && r < |sub1|
    requires Numbered(sub1, 2 * r + 1) && Numbered(sub2, 2 * r + 2)
    requires Apart(sub1, sub2) && node !in sub1 && node !in sub2
    ensures NodeSet(Join(sub1, sub2, node, r)) == NodeSet(sub1) + NodeSet(sub2) + {node}
  {
    hide Numbered, Apart;
    JoinNumbered(sub1, sub2, node, r);
    var sub := Join(sub1, sub2, node, r);
    assert sub[r] == node;
    forall i: nat | i < |sub|
      ensures sub1[i] != null ==> sub1[i] in sub
      ensures sub2[i] != null ==> sub2[i] in sub
    {
      assert sub[i] in sub;
    }
  }

  lemma NodeDoneInLarger(sub: Layer, all: Layer, leaves: seq<Hash>, i: nat)
    requires |sub| + 1 == |all| + 1 == 2 * |leaves| && i < |sub| && sub[i] != null && NodeDone(sub, leaves, i)
    requires forall k :: 0 <= k < |sub| && sub[k] != null ==> all[k] == sub[k]
    ensures NodeDone(all, leaves, i)
  {
    hide NodeHash, HashHex;
  }

  /** Two grown subtrees under one node make a grown tree. */
  lemma JoinGrown(sub1: Layer, sub2: Layer, node: TreeNode, r: nat, leaves: seq<Hash>)
    requires r + 1 < |leaves|
    requires Grown(sub1, 2 * r + 1, leaves) && Grown(sub2, 2 * r + 2, leaves)
    requires Apart(sub1, sub2) && node !in sub1 && node !in sub2
    requires node.left == sub1[2 * r + 1] && node.right == sub2[2 * r + 2] && !node.is_leaf
    requires node.left != null && node.left.parent == node && node.right != null && node.right.parent == node
    requires node.computed_hash == NodeHash(HashHex, leaves, r)
    ensures Grown(Join(sub1, sub2, node, r), r, leaves)
    ensures NodeSet(Join(sub1, sub2, node, r)) == NodeSet(sub1) + NodeSet(sub2) + {node}
  {
    hide NodeHash, HashHex, Covers, Numbered, NodeSet;
    JoinNumbered(sub1, sub2, node, r);
    JoinNodes(sub1, sub2, node, r);
    var sub := Join(sub1, sub2, node, r);
    forall i: nat | i < |sub| && sub[i] != null
      ensures NodeDone(sub, leaves, i)
    {
      if sub1[i] != null {
        assert NodeDone(sub1, leaves, i);
        NodeDoneInLarger(sub1, sub, leaves, i);
      } else if sub2[i] != null {
        assert NodeDone(sub2, leaves, i);
        NodeDoneInLarger(sub2, sub, leaves, i);
      }
    }
    forall i: nat | i < |sub| && i != r && sub[i] != null
      ensures ParentDone(sub, i)
    {
      ParentInJoin(sub1, sub2, node, r, leaves, i);
    }
  }

  lemma ParentInJoin(sub1: Layer, sub2: Layer, node: TreeNode, r: nat, leaves: seq<Hash>, i: nat)
    requires Grown(sub1, 2 * r + 1, leaves) && Grown(sub2, 2 * r + 2, leaves) && r + 1 < |leaves|
    requires i < |sub1| && (sub1[i] != null || sub2[i] != null)
    requires sub1[2 * r + 1] != null && sub1[2 * r + 1].parent == node
    requires sub2[2 * r + 2] != null && sub2[2 * r + 2].parent == node
    requires forall k :: 0 <= k < |sub1| && sub2[k] != null ==> sub1[k] == null
    requires sub1[r] == null && sub2[r] == null && i > r
    ensures ParentDone(Join(sub1, sub2, node, r), i)
  {
    hide NodeHash, HashHex, Covers, Numbered, NodeDone;
    var up := (i - 1) / 2;
    if sub1[i] != null {
      if i != 2 * r + 1 { assert ParentDone(sub1, i); assert up != r; }
    } else {
      if i != 2 * r + 2 { assert ParentDone(sub2, i); assert up != r; }
    }
  }
}
