// The shape of a complete binary tree by node number: the root is 0 and the children of i are
// 2 * i + 1 and 2 * i + 2, so that counting upwards is reading level by level, left to right.
module HeapIndex {

  function Pow2(n: nat): (p: nat)
    ensures p > 0
  {
    if n == 0 then 1 else 2 * Pow2(n - 1)
  }

  /** Node a is node i or one of its ancestors. */
  predicate Covers(a: nat, i: nat)
    decreases i
  {
    i == a || (i > a && Covers(a, (i - 1) / 2))
  }

  lemma {:induction false} CoversSplit(a: nat, i: nat)
    ensures Covers(a, i) <==> i == a || Covers(2 * a + 1, i) || Covers(2 * a + 2, i)
    decreases i
  {
    if i > a {
      CoversSplit(a, (i - 1) / 2);
    }
  }

  lemma {:induction false} CoversApart(a: nat, i: nat)
    ensures !(Covers(2 * a + 1, i) && Covers(2 * a + 2, i))
    decreases i
  {
    if i > 2 * a + 2 {
      CoversApart(a, (i - 1) / 2);
    }
  }

  lemma {:induction false} RootCovers(i: nat)
    ensures Covers(0, i)
    decreases i
  {
    if i > 0 {
      RootCovers((i - 1) / 2);
    }
  }

  lemma {:induction false} CoversTransitive(a: nat, b: nat, i: nat)
    requires Covers(a, b) && Covers(b, i)
    ensures Covers(a, i)
    decreases i
  {
    if i > b {
      CoversTransitive(a, b, (i - 1) / 2);
    }
  }

  /** Two ancestors of one node lie on one path. */
  lemma {:induction false} CoversComparable(a: nat, b: nat, i: nat)
    requires Covers(a, i) && Covers(b, i)
    ensures if a <= b then Covers(a, b) else Covers(b, a)
    decreases i
  {
    if i > a && i > b {
      CoversComparable(a, b, (i - 1) / 2);
    }
  }

  // ---------- level and position ----------

  /** The node reached from the root by d steps whose left-right choices spell j in binary. */
  function NodeAt(d: nat, j: nat): nat
    requires j < Pow2(d)
  {
    if d == 0 then 0 else 2 * NodeAt(d - 1, j / 2) + 1 + j % 2
  }

  /** Depth-first address (d, j) and breadth-first number of one node. */
  lemma {:induction false} NodeAtNumber(d: nat, j: nat)
    requires j < Pow2(d)
    ensures NodeAt(d, j) == Pow2(d) - 1 + j
  {
    if d > 0 {
      NodeAtNumber(d - 1, j / 2);
    }
  }

  lemma NodeAtChild(d: nat, j: nat, b: nat)
    requires j < Pow2(d) && b < 2
    ensures 2 * j + b < Pow2(d + 1) && NodeAt(d + 1, 2 * j + b) == 2 * NodeAt(d, j) + 1 + b
  {
    assert (2 * j + b) / 2 == j && (2 * j + b) % 2 == b;
  }

  /** Every number is the number of some address. */
  lemma {:induction false} AddressOf(i: nat) returns (d: nat, j: nat)
    ensures j < Pow2(d) && NodeAt(d, j) == i
    decreases i
  {
    if i == 0 {
      d, j := 0, 0;
    } else {
      hide NodeAt, Pow2;
      var up := (i - 1) / 2;
      d, j := AddressOf(up);
      var b := i - 1 - 2 * up;
      NodeAtChild(d, j, b);
      d, j := d + 1, 2 * j + b;
    }
  }

  /** No two addresses share a number. */
  lemma AddressUnique(d: nat, j: nat, d': nat, j': nat)
    requires j < Pow2(d) && j' < Pow2(d') && NodeAt(d, j) == NodeAt(d', j')
    ensures d == d' && j == j'
  {
    NodeAtNumber(d, j);
    NodeAtNumber(d', j');
    if d < d' { Pow2Monotone(d, d'); }
    if d' < d { Pow2Monotone(d', d); }
  }

  lemma {:induction false} Pow2Monotone(a: nat, b: nat)
    requires a < b
    ensures 2 * Pow2(a) <= Pow2(b)
  {
    if a + 1 < b {
      Pow2Monotone(a, b - 1);
    }
  }

  lemma Pow2Injective(a: nat, b: nat)
    requires Pow2(a) <= Pow2(b) < 2 * Pow2(a)
    ensures a == b
  {
    if a < b { Pow2Monotone(a, b); }
    if b < a { Pow2Monotone(b, a); }
  }

  lemma {:induction false} Pow2Sum(a: nat, b: nat)
    ensures Pow2(a + b) == Pow2(a) * Pow2(b)
  {
    if a > 0 {
      Pow2Sum(a - 1, b);
      assert Pow2(a) * Pow2(b) == 2 * (Pow2(a - 1) * Pow2(b));
    }
  }

  /** Node (d, j) covers, k levels below it, the 2^k positions from j * 2^k on. */
  lemma {:induction false} CoversRange(d: nat, j: nat, k: nat, p: nat)
    requires j < Pow2(d) && p < Pow2(d + k)
    ensures Covers(NodeAt(d, j), NodeAt(d + k, p)) <==> j * Pow2(k) <= p < (j + 1) * Pow2(k)
  {
    hide NodeAt, Covers;
    if k == 0 {
      CoversSameLevel(d, j, p);
    } else {
      CoversRange(d, j, k - 1, p / 2);
      DoubleProduct(j, Pow2(k - 1));
      DoubleProduct(j + 1, Pow2(k - 1));
      Halve(p, j * Pow2(k - 1), (j + 1) * Pow2(k - 1));
      CoversParent(d, j, k, p);
    }
  }

  lemma CoversUp(a: nat, up: nat, b: nat)
    requires b < 2 && a <= 2 * up + b
    ensures Covers(a, 2 * up + 1 + b) <==> Covers(a, up)
  {
    assert (2 * up + b) / 2 == up;
  }

  lemma CoversParent(d: nat, j: nat, k: nat, p: nat)
    requires k > 0 && j < Pow2(d) && p < Pow2(d + k)
    ensures Covers(NodeAt(d, j), NodeAt(d + k, p)) <==> Covers(NodeAt(d, j), NodeAt(d + k - 1, p / 2))
  {
    hide Covers, NodeAt;
    NodeAtNumber(d, j);
    NodeAtNumber(d + k, p);
    Pow2Monotone(d, d + k);
    NodeAtChild(d + k - 1, p / 2, p % 2);
    CoversUp(NodeAt(d, j), NodeAt(d + k - 1, p / 2), p % 2);
  }

  lemma DoubleProduct(a: nat, m: nat)
    ensures a * (2 * m) == 2 * (a * m)
  {
  }

  lemma Halve(p: nat, a: nat, b: nat)
    ensures a <= p / 2 < b <==> 2 * a <= p < 2 * b
  {
  }

  lemma CoversSameLevel(d: nat, j: nat, p: nat)
    requires j < Pow2(d) && p < Pow2(d)
    ensures Covers(NodeAt(d, j), NodeAt(d, p)) <==> j == p
  {
    NodeAtNumber(d, j);
    NodeAtNumber(d, p);
    if p > j && Covers(NodeAt(d, j), NodeAt(d, p)) {
      CoversOrder(NodeAt(d, j), (NodeAt(d, p) - 1) / 2);
    }
  }

  /** A node is numbered after its proper ancestors, and below its own double. */
  lemma {:induction false} CoversOrder(a: nat, i: nat)
    requires Covers(a, i)
    ensures a <= i
    decreases i
  {
    if i > a { CoversOrder(a, (i - 1) / 2); }
  }

  /** How many steps node i is below the root. */
  function Depth(i: nat): nat {
    if i == 0 then 0 else 1 + Depth((i - 1) / 2)
  }

  lemma {:induction false} DepthRange(i: nat)
    ensures Pow2(Depth(i)) <= i + 1 < 2 * Pow2(Depth(i))
    decreases i
  {
    if i > 0 { DepthRange((i - 1) / 2); }
  }

  lemma DepthMonotone(a: nat, b: nat)
    requires a <= b
    ensures Depth(a) <= Depth(b)
  {
    DepthRange(a);
    DepthRange(b);
    if Depth(b) < Depth(a) { Pow2Monotone(Depth(b), Depth(a)); }
  }

  // ---------- increasing listings ----------

  /** The members of v from lo up to but excluding hi, in increasing order. */
  function Select(v: set<nat>, lo: nat, hi: nat): seq<nat>
    decreases hi - lo
  {
    if lo >= hi then []
    else (if lo in v then [lo] else []) + Select(v, lo + 1, hi)
  }

  lemma {:induction false} SelectSplit(v: set<nat>, lo: nat, mid: nat, hi: nat)
    requires lo <= mid <= hi
    ensures Select(v, lo, hi) == Select(v, lo, mid) + Select(v, mid, hi)
    decreases mid - lo
  {
    if lo < mid {
      SelectSplit(v, lo + 1, mid, hi);
    }
  }

  lemma {:induction false} SelectMembers(v: set<nat>, lo: nat, hi: nat, x: nat)
    ensures x in Select(v, lo, hi) <==> lo <= x < hi && x in v
    decreases hi - lo
  {
    if lo < hi {
      SelectMembers(v, lo + 1, hi, x);
    }
  }

  lemma {:induction false} SelectAgree(v: set<nat>, w: set<nat>, lo: nat, hi: nat)
    requires forall i :: lo <= i < hi ==> (i in v <==> i in w)
    ensures Select(v, lo, hi) == Select(w, lo, hi)
    decreases hi - lo
  {
    if lo < hi {
      SelectAgree(v, w, lo + 1, hi);
    }
  }

  lemma {:induction false} SelectNone(v: set<nat>, lo: nat, hi: nat)
    requires forall i :: lo <= i < hi ==> i !in v
    ensures Select(v, lo, hi) == []
    decreases hi - lo
  {
    if lo < hi {
      SelectNone(v, lo + 1, hi);
    }
  }

  lemma SelectOnly(a: nat, hi: nat)
    requires a < hi
    ensures Select({a}, 0, hi) == [a]
  {
    SelectSplit({a}, 0, a, hi);
    SelectNone({a}, 0, a);
    SelectNone({a}, a + 1, hi);
  }

  lemma {:induction false} SelectIncreasing(v: set<nat>, lo: nat, hi: nat)
    ensures var s := Select(v, lo, hi);
      forall i, j :: 0 <= i < j < |s| ==> s[i] < s[j]
    decreases hi - lo
  {
    if lo < hi {
      SelectIncreasing(v, lo + 1, hi);
      var rest := Select(v, lo + 1, hi);
      forall k | 0 <= k < |rest|
        ensures rest[k] > lo
      {
        SelectMembers(v, lo + 1, hi, rest[k]);
      }
    }
  }

  lemma {:induction false} SelectSize(v: set<nat>, n: nat)
    requires forall i :: i in v ==> i < n
    ensures |Select(v, 0, n)| == |v|
  {
    if n == 0 {
      assert v == {};
    } else {
      var m := n - 1;
      SelectSplit(v, 0, m, n);
      SelectAgree(v, v - {m}, 0, m);
      SelectSize(v - {m}, m);
      assert Select(v, m, n) == if m in v then [m] else [];
    }
  }

  // ---------- the queue of a level-order traversal ----------

  /**
   * What a level-order traversal of the nodes in v, out of n, has in its queue once the nodes below a
   * are behind it: the visited nodes from a on whose parent is below a.
   */
  function Frontier(v: set<nat>, n: nat, a: nat): seq<nat> {
    Select(v, a, if 2 * a + 1 < n then 2 * a + 1 else n)
  }

  /** The children of node a among n nodes. */
  function Children(n: nat, a: nat): seq<nat> {
    if 2 * a + 2 < n then [2 * a + 1, 2 * a + 2] else []
  }

  /** Nothing below an unvisited node is visited, and sibling nodes are visited together. */
  ghost predicate Closed(v: set<nat>, n: nat, start: nat) {
    && (forall i :: i in v ==> i < n)
    && forall i :: start <= i && 2 * i + 2 < n ==>
      (2 * i + 1 in v <==> 2 * i + 2 in v) && (2 * i + 1 in v ==> i in v)
  }

  /** Started at node a, where nothing else up to its children is visited, the queue is just a. */
  lemma StartingQueue(v: set<nat>, n: nat, a: nat)
    requires a < n && a in v && forall i: nat :: a < i <= 2 * a ==> i !in v
    ensures Frontier(v, n, a) == [a]
  {
    SelectNone(v, a + 1, if 2 * a + 1 < n then 2 * a + 1 else n);
  }

  /** Passing over an unvisited node leaves the queue as it is. */
  lemma FrontierSkip(v: set<nat>, n: nat, start: nat, a: nat)
    requires n % 2 == 1 && Closed(v, n, start) && start <= a < n && a !in v
    ensures Frontier(v, n, a + 1) == Frontier(v, n, a)
  {
    var hi := if 2 * a + 1 < n then 2 * a + 1 else n;
    var hi' := if 2 * a + 3 < n then 2 * a + 3 else n;
    SelectSplit(v, a + 1, hi, hi');
    SelectNone(v, hi, hi');
  }

  /** Popping node a and pushing its children when they are visited. */
  lemma FrontierStep(v: set<nat>, n: nat, start: nat, a: nat)
    requires n % 2 == 1 && Closed(v, n, start) && start <= a < n && a in v
    ensures Frontier(v, n, a) != [] && Frontier(v, n, a)[0] == a
    ensures 2 * a + 1 in v ==> Frontier(v, n, a + 1) == Frontier(v, n, a)[1..] + [2 * a + 1, 2 * a + 2]
    ensures 2 * a + 1 !in v ==> Frontier(v, n, a + 1) == Frontier(v, n, a)[1..]
  {
    var hi := if 2 * a + 1 < n then 2 * a + 1 else n;
    var hi' := if 2 * a + 3 < n then 2 * a + 3 else n;
    SelectSplit(v, a + 1, hi, hi');
    if 2 * a + 2 < n {
      assert Select(v, hi, hi') == (if hi in v then [hi] else []) + Select(v, hi + 1, hi');
      assert Select(v, hi + 1, hi') == if hi + 1 in v then [hi + 1] else [];
    }
  }

  /** The front of the queue is the next visited node; an empty queue means there is none. */
  lemma {:induction false} FrontierFront(v: set<nat>, n: nat, start: nat, a: nat)
    requires n % 2 == 1 && Closed(v, n, start) && start <= a <= n
    ensures var q := Frontier(v, n, a);
      if q == [] then forall i :: a <= i < n ==> i !in v
      else a <= q[0] < n && q[0] in v && Frontier(v, n, q[0]) == q && forall i :: a <= i < q[0] ==> i !in v
    decreases n - a
  {
    if a < n {
      if a in v {
        FrontierStep(v, n, start, a);
      } else {
        FrontierSkip(v, n, start, a);
        FrontierFront(v, n, start, a + 1);
      }
    }
  }
}
