// Merkle trees as values: the expected and the computed hash of every node, by node number.
// The hash function is a parameter; nothing here assumes that it is injective. Where a property fails
// only through a collision, the lemma says at which node of the tree the colliding inputs are.
module Merkle {
  import opened Sha256Spec
  import opened HeapIndex

  type Hasher = Bytes -> Hash

  datatype HashTree = HashTree(expected: seq<Hash>, computed: seq<Hash>) {

    predicate WellFormed() {
      |expected| == |computed| && |expected| % 2 == 1
    }

    function Size(): nat { |expected| }

    predicate Leaf(i: nat) {
      i < Size() <= 2 * i + 2
    }

    predicate Matches(i: nat) {
      i < |expected| && i < |computed| && expected[i] == computed[i]
    }

    /** Every node: all are below the root. */
    function AllNodes(): set<nat> {
      NodesBelow(0)
    }

    /** No proper ancestor of node i matches. */
    predicate Exposed(i: nat) {
      forall a: nat | a < i && Covers(a, i) :: !Matches(a)
    }

    function ExposedNodes(): set<nat> {
      set i: nat | i < Size() && Exposed(i)
    }

    /** The matching nodes below no other matching node. */
    function Topmost(): set<nat> {
      set i: nat | i < Size() && Matches(i) && Exposed(i)
    }

    function NodesBelow(a: nat): set<nat> {
      set i: nat | i < Size() && Covers(a, i)
    }

    function LeavesBelow(a: nat): set<nat> {
      set i: nat | i < Size() && Leaf(i) && Covers(a, i)
    }

    function CompletedLeaves(): set<nat> {
      set i: nat | i < Size() && Leaf(i) && Matches(i)
    }

    /** The expected hashes of the nodes in v, in level order. */
    function Listing(v: set<nat>): seq<Hash>
    {
      Labels(expected, Select(v, 0, Size()))
    }

    /** The first node in level order, from node i on, whose expected hash is hash; Size() if none. */
    function FirstWith(hash: Bytes, i: nat): (f: nat)
      requires i <= Size()
      ensures i <= f <= Size()
      ensures forall j :: i <= j < f ==> expected[j] != hash
      ensures f < Size() ==> expected[f] == hash
      decreases Size() - i
    {
      if i == Size() || expected[i] == hash then i else FirstWith(hash, i + 1)
    }

    /** The expected hashes of the leaves below the first node labelled hash. */
    function ChunksOf(hash: Bytes): seq<Hash> {
      var f := FirstWith(hash, 0);
      if f == Size() then [] else Listing(LeavesBelow(f))
    }
  }

  lemma AllNodesMembers(t: HashTree)
    ensures forall i: nat :: i in t.AllNodes() <==> i < t.Size()
  {
    forall i: nat
      ensures Covers(0, i)
    {
      RootCovers(i);
    }
  }

  /** The labels of the nodes in idx; a number outside the tree has none. */
  function Labels(s: seq<Hash>, idx: seq<nat>): seq<Hash> {
    if idx == [] then []
    else (if idx[0] < |s| then [s[idx[0]]] else []) + Labels(s, idx[1..])
  }

  lemma {:induction false} LabelsAppend(s: seq<Hash>, a: seq<nat>, b: seq<nat>)
    ensures Labels(s, a + b) == Labels(s, a) + Labels(s, b)
  {
    if a == [] {
      assert a + b == b;
    } else {
      var c := a + b;
      assert c[0] == a[0] && c[1..] == a[1..] + b;
      LabelsAppend(s, a[1..], b);
      var head := if a[0] < |s| then [s[a[0]]] else [];
      assert Labels(s, a) == head + Labels(s, a[1..]);
      assert Labels(s, c) == head + (Labels(s, a[1..]) + Labels(s, b));
    }
  }

  lemma LabelsHead(s: seq<Hash>, v: set<nat>, lo: nat, hi: nat)
    requires lo < hi
    ensures Labels(s, Select(v, lo, hi))
         == (if lo in v && lo < |s| then [s[lo]] else []) + Labels(s, Select(v, lo + 1, hi))
  {
    var rest := Select(v, lo + 1, hi);
    if lo in v {
      assert ([lo] + rest)[1..] == rest;
    } else {
      assert [] + rest == rest;
    }
  }

  /** What an inner node's hash is taken of: the text of the left hash, then that of the right one. */
  function Pair(left: Hash, right: Hash): (r: Bytes)
    ensures |r| == 128 && r[..64] == left && r[64..] == right
  {
    var first: Bytes := left;
    first + right
  }

  lemma PairIsText(a: Hash, b: Hash)
    ensures var left: Bytes, right: Bytes := a, b; Pair(a, b) == left + right
  {
  }

  predicate ConsistentAt(h: Hasher, s: seq<Hash>, i: nat) {
    2 * i + 2 < |s| ==> s[i] == h(Pair(s[2 * i + 1], s[2 * i + 2]))
  }

  /** Every inner node is labelled with the hash of its children's labels. */
  predicate Consistent(h: Hasher, s: seq<Hash>) {
    forall i: nat | i < |s| :: ConsistentAt(h, s, i)
  }

  /** The expected and the computed labels below node i are two inputs of h with one hash. */
  predicate CollidesAt(h: Hasher, t: HashTree, i: nat) {
    t.WellFormed() && 2 * i + 2 < t.Size()
    && var x := Pair(t.expected[2 * i + 1], t.expected[2 * i + 2]);
       var y := Pair(t.computed[2 * i + 1], t.computed[2 * i + 2]);
       x != y && |x| == |y| == 128 && h(x) == h(y)
  }

  /** The labels below nodes i and j are two inputs of h with one hash. */
  predicate LabelsCollide(h: Hasher, s: seq<Hash>, i: nat, j: nat) {
    2 * i + 2 < |s| && 2 * j + 2 < |s|
    && var x, y := Pair(s[2 * i + 1], s[2 * i + 2]), Pair(s[2 * j + 1], s[2 * j + 2]);
       x != y && |x| == |y| == 128 && h(x) == h(y)
  }

  predicate BothConsistent(h: Hasher, t: HashTree) {
    t.WellFormed() && Consistent(h, t.expected) && Consistent(h, t.computed)
  }

  /** The same for the nodes below node a only. */
  ghost predicate ConsistentBelow(h: Hasher, s: seq<Hash>, a: nat) {
    forall i: nat | Covers(a, i) :: ConsistentAt(h, s, i)
  }

  ghost predicate BothConsistentBelow(h: Hasher, t: HashTree, a: nat) {
    t.WellFormed() && ConsistentBelow(h, t.expected, a) && ConsistentBelow(h, t.computed, a)
  }

  /** The label of node i when the leaves carry the given hashes and inner nodes hash their children. */
  function NodeHash(h: Hasher, leaves: seq<Hash>, i: nat): Hash
    requires i + 1 < 2 * |leaves|
    decreases 2 * |leaves| - i
  {
    if i + 1 < |leaves| then h(Pair(NodeHash(h, leaves, 2 * i + 1), NodeHash(h, leaves, 2 * i + 2)))
    else leaves[i + 1 - |leaves|]
  }

  // ---------- binding ----------

  lemma SplitPair(a: Hash, b: Hash, c: Hash, d: Hash)
    requires Pair(a, b) == Pair(c, d)
    ensures a == c && b == d
  {
    hide Pair;
    assert Pair(a, b)[..64] == a && Pair(a, b)[64..] == b;
  }

  /** A matching node above a mismatching one: some node between them shows a collision. */
  lemma {:induction false} Binding(h: Hasher, t: HashTree, a: nat, m: nat) returns (c: nat)
    requires BothConsistentBelow(h, t, a) && m < t.Size() && Covers(a, m) && t.Matches(a) && !t.Matches(m)
    ensures Covers(a, c) && Covers(c, m) && c != m && CollidesAt(h, t, c)
    decreases m
  {
    var p := (m - 1) / 2;
    assert Covers(p, p) && Covers(p, m);
    if t.Matches(p) {
      c := p;
      var l, r := 2 * p + 1, 2 * p + 2;
      assert m == l || m == r;
      assert ConsistentAt(h, t.expected, p) && ConsistentAt(h, t.computed, p);
      if Pair(t.expected[l], t.expected[r]) == Pair(t.computed[l], t.computed[r]) {
        SplitPair(t.expected[l], t.expected[r], t.computed[l], t.computed[r]);
      }
    } else {
      c := Binding(h, t, a, p);
      CoversTransitive(c, p, m);
      CoversOrder(c, p);
    }
  }

  /** When every leaf below a node matches, so does the node. */
  lemma {:induction false} MatchesFromLeaves(h: Hasher, t: HashTree, a: nat)
    requires BothConsistentBelow(h, t, a) && a < t.Size()
    requires forall l :: l in t.LeavesBelow(a) ==> t.Matches(l)
    ensures t.Matches(a)
    decreases t.Size() - a
  {
    if t.Leaf(a) {
      assert a in t.LeavesBelow(a);
    } else {
      var l, r := 2 * a + 1, 2 * a + 2;
      ChildLeaves(t, a);
      forall i: nat | Covers(l, i) || Covers(r, i)
        ensures Covers(a, i)
      {
        CoversSplit(a, i);
      }
      MatchesFromLeaves(h, t, l);
      MatchesFromLeaves(h, t, r);
      assert Covers(a, a);
      assert ConsistentAt(h, t.expected, a) && ConsistentAt(h, t.computed, a);
    }
  }

  lemma ChildLeaves(t: HashTree, a: nat)
    requires t.WellFormed() && a < t.Size() && !t.Leaf(a)
    ensures t.LeavesBelow(a) == t.LeavesBelow(2 * a + 1) + t.LeavesBelow(2 * a + 2)
    ensures t.LeavesBelow(2 * a + 1) !! t.LeavesBelow(2 * a + 2)
  {
    forall i: nat
      ensures Covers(a, i) <==> i == a || Covers(2 * a + 1, i) || Covers(2 * a + 2, i)
      ensures !(Covers(2 * a + 1, i) && Covers(2 * a + 2, i))
    {
      CoversSplit(a, i);
      CoversApart(a, i);
    }
  }

  /** A node matches exactly when all leaves below it do, or a collision below it is at hand. */
  lemma MatchIffLeaves(h: Hasher, t: HashTree, a: nat)
    requires BothConsistentBelow(h, t, a) && a < t.Size()
    ensures (t.Matches(a) <==> t.LeavesBelow(a) <= t.CompletedLeaves())
         || exists c :: Covers(a, c) && CollidesAt(h, t, c)
  {
    if t.LeavesBelow(a) <= t.CompletedLeaves() {
      MatchesFromLeaves(h, t, a);
    } else if t.Matches(a) {
      var l :| l in t.LeavesBelow(a) && l !in t.CompletedLeaves();
      var c := Binding(h, t, a, l);
    }
  }

  /**
   * Without consistent labels: all nodes below a match exactly when a does and the labels
   * below it are made from each other, or a collision below it is at hand.
   */
  lemma AllBelowMatch(h: Hasher, t: HashTree, a: nat)
    requires t.WellFormed() && ConsistentBelow(h, t.computed, a) && a < t.Size()
    ensures ((forall i :: i in t.NodesBelow(a) ==> t.Matches(i)) <==>
              t.Matches(a) && ConsistentBelow(h, t.expected, a))
         || exists c :: Covers(a, c) && CollidesAt(h, t, c)
  {
    if forall i :: i in t.NodesBelow(a) ==> t.Matches(i) {
      assert Covers(a, a) && a in t.NodesBelow(a);
      forall i: nat | Covers(a, i)
        ensures ConsistentAt(h, t.expected, i)
      {
        LabelFromChildren(h, t, a, i);
      }
    } else if t.Matches(a) && ConsistentBelow(h, t.expected, a) {
      var m :| m in t.NodesBelow(a) && !t.Matches(m);
      var c := Binding(h, t, a, m);
    }
  }

  lemma LabelFromChildren(h: Hasher, t: HashTree, a: nat, i: nat)
    requires t.WellFormed() && ConsistentBelow(h, t.computed, a) && Covers(a, i)
    requires forall m :: m in t.NodesBelow(a) ==> t.Matches(m)
    ensures ConsistentAt(h, t.expected, i)
  {
    if 2 * i + 2 < t.Size() {
      var l, r := 2 * i + 1, 2 * i + 2;
      assert (l - 1) / 2 == i && (r - 1) / 2 == i;
      CoversOrder(a, i);
      assert Covers(a, l) && Covers(a, r);
      assert i in t.NodesBelow(a) && l in t.NodesBelow(a) && r in t.NodesBelow(a);
      assert ConsistentAt(h, t.computed, i);
    }
  }

  // ---------- the minimal set ----------

  lemma {:induction false} LeafBelow(t: HashTree, a: nat) returns (l: nat)
    requires a < t.Size() && t.WellFormed()
    ensures l in t.LeavesBelow(a)
    decreases t.Size() - a
  {
    if t.Leaf(a) {
      l := a;
    } else {
      l := LeafBelow(t, 2 * a + 1);
      CoversSplit(a, l);
    }
  }

  /** Above every matching node, or at it, there is a topmost one. */
  lemma {:induction false} TopmostAbove(t: HashTree, m: nat) returns (a: nat)
    requires t.Matches(m)
    ensures a in t.Topmost() && Covers(a, m)
    decreases m
  {
    if t.Exposed(m) {
      a := m;
    } else {
      var b: nat :| b < m && Covers(b, m) && t.Matches(b);
      a := TopmostAbove(t, b);
      CoversTransitive(a, b, m);
    }
  }

  /** The topmost nodes form an antichain. */
  lemma TopmostApart(t: HashTree, a: nat, b: nat, i: nat)
    requires a in t.Topmost() && b in t.Topmost() && Covers(a, i) && Covers(b, i)
    ensures a == b
  {
    CoversComparable(a, b, i);
  }

  /** They cover exactly the leaves that have a matching ancestor or match themselves. */
  lemma TopmostCovers(t: HashTree, l: nat)
    requires t.Leaf(l)
    ensures (exists a :: a in t.Topmost() && Covers(a, l)) <==> (exists m :: t.Matches(m) && Covers(m, l))
  {
    if m :| t.Matches(m) && Covers(m, l) {
      var a := TopmostAbove(t, m);
      CoversTransitive(a, m, l);
    }
  }

  /** Nodes apart from each other, each with a member of f below it, are no more than the members of f. */
  lemma {:induction false} ApartNodesBound(top: set<nat>, f: set<nat>)
    requires forall a, b, i :: a in top && b in top && Covers(a, i) && Covers(b, i) ==> a == b
    requires forall a :: a in top ==> exists m :: m in f && Covers(a, m)
    ensures |top| <= |f|
  {
    if top != {} {
      var a :| a in top;
      var m :| m in f && Covers(a, m);
      forall b | b in top - {a}
        ensures exists m' :: m' in f - {m} && Covers(b, m')
      {
        var m' :| m' in f && Covers(b, m');
        assert m' in f - {m};
      }
      ApartNodesBound(top - {a}, f - {m});
    }
  }

  /** No family of matching nodes that covers the same leaves is smaller. */
  lemma TopmostIsMinimal(t: HashTree, f: set<nat>)
    requires t.WellFormed()
    requires forall m :: m in f ==> t.Matches(m)
    requires forall l, a :: t.Leaf(l) && a in t.Topmost() && Covers(a, l) ==> exists m :: m in f && Covers(m, l)
    ensures |t.Topmost()| <= |f|
  {
    forall a | a in t.Topmost()
      ensures exists m :: m in f && Covers(a, m)
    {
      var l := LeafBelow(t, a);
      var m :| m in f && Covers(m, l);
      CoversComparable(a, m, l);
      assert Covers(a, m);
    }
    forall a, b, i | a in t.Topmost() && b in t.Topmost() && Covers(a, i) && Covers(b, i)
      ensures a == b
    {
      TopmostApart(t, a, b, i);
    }
    ApartNodesBound(t.Topmost(), f);
  }

  /** The leaves below the topmost nodes are the completed ones, or a collision is at hand. */
  lemma TopmostCoversCompleted(h: Hasher, t: HashTree)
    requires BothConsistent(h, t)
    ensures (forall l :: t.Leaf(l) ==> (l in t.CompletedLeaves() <==> exists a :: a in t.Topmost() && Covers(a, l)))
         || exists c :: CollidesAt(h, t, c)
  {
    if l :| t.Leaf(l) && !(l in t.CompletedLeaves() <==> exists a :: a in t.Topmost() && Covers(a, l)) {
      TopmostCovers(t, l);
      assert Covers(l, l);
      assert l !in t.CompletedLeaves();
      var a :| a in t.Topmost() && Covers(a, l);
      var c := Binding(h, t, a, l);
    }
  }
}
