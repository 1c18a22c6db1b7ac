// When a package is reported complete. The program asks whether the topmost set has one member; its
// documentation asks whether the root matches. This module says exactly where the two differ.
module Completeness {
  import opened HeapIndex
  import opened Merkle

  /** The answer of isComplete. */
  predicate ReportedComplete(t: HashTree) {
    |t.Topmost()| == 1
  }

  lemma SingletonMember(s: set<nat>) returns (a: nat)
    requires |s| == 1
    ensures s == {a}
  {
    a :| a in s;
    assert |s - {a}| == 0;
  }

  /** A matching node with all matching nodes below it is the only topmost one. */
  lemma OneAbove(t: HashTree, a: nat)
    requires t.WellFormed() && t.Matches(a) && forall m :: t.Matches(m) ==> Covers(a, m)
    ensures t.Topmost() == {a}
  {
    forall b: nat | b < a && Covers(b, a)
      ensures !t.Matches(b)
    {
      if t.Matches(b) { CoversOrder(a, b); }
    }
    assert a in t.Topmost();
    forall b | b in t.Topmost()
      ensures b == a
    {
      CoversOrder(a, b);
    }
  }

  /** Reported complete: one matching node has all matching nodes below it. */
  lemma ReportedIffOneAbove(t: HashTree)
    requires t.WellFormed()
    ensures ReportedComplete(t) <==> exists a :: t.Matches(a) && forall m :: t.Matches(m) ==> Covers(a, m)
  {
    if ReportedComplete(t) {
      var a := SingletonMember(t.Topmost());
      assert a in t.Topmost();
      forall m | t.Matches(m)
        ensures Covers(a, m)
      {
        var b := TopmostAbove(t, m);
      }
    }
    if a: nat :| t.Matches(a) && forall m :: t.Matches(m) ==> Covers(a, m) {
      OneAbove(t, a);
    }
  }

  /** A matching root is always reported. */
  lemma RootMatchReported(t: HashTree)
    requires t.WellFormed() && t.Matches(0)
    ensures ReportedComplete(t)
  {
    forall m: nat
      ensures Covers(0, m)
    {
      RootCovers(m);
    }
    ReportedIffOneAbove(t);
  }

  /** The completed chunks are exactly those of the proper subtree at node a. */
  predicate OneProperBlock(t: HashTree, a: nat) {
    0 < a < t.Size() && t.CompletedLeaves() == t.LeavesBelow(a)
  }

  /** A node that is not below a has a leaf that is not below a either. */
  lemma {:induction false} LeafOutside(t: HashTree, b: nat, a: nat) returns (l: nat)
    requires t.WellFormed() && b < t.Size() && a < t.Size() && b != a && !Covers(a, b)
    ensures l in t.LeavesBelow(b) && !Covers(a, l)
    decreases t.Size() - b
  {
    if Covers(b, a) {
      CoversSplit(b, a);
      var down, aside := 2 * b + 1, 2 * b + 2;
      if !Covers(down, a) { down, aside := aside, down; }
      CoversOrder(b, a);
      CoversOrder(down, a);
      assert Covers(down, a);
      l := LeafBelow(t, aside);
      CoversSplit(b, l);
      CoversApart(b, l);
      CoversApart(b, a);
      if Covers(a, l) { CoversTransitive(down, a, l); }
    } else {
      l := LeafBelow(t, b);
      if Covers(a, l) { CoversComparable(a, b, l); }
    }
  }

  /**
   * For a consistent package the report is wrong exactly when the completed chunks are
   * those of one proper subtree (or a collision is at hand).
   */
  lemma WrongIffOneProperBlock(h: Hasher, t: HashTree)
    requires BothConsistent(h, t)
    ensures (ReportedComplete(t) != t.Matches(0) <==> exists a :: OneProperBlock(t, a))
         || exists c :: CollidesAt(h, t, c)
  {
    if !exists c :: CollidesAt(h, t, c) {
      if ReportedComplete(t) != t.Matches(0) {
        WrongGivesBlock(h, t);
      }
      if a :| OneProperBlock(t, a) {
        BlockGivesWrong(h, t, a);
      }
    }
  }

  lemma WrongGivesBlock(h: Hasher, t: HashTree)
    requires BothConsistent(h, t) && !exists c :: CollidesAt(h, t, c)
    requires ReportedComplete(t) != t.Matches(0)
    ensures exists a :: OneProperBlock(t, a)
  {
    if t.Matches(0) { RootMatchReported(t); }
    var a := SingletonMember(t.Topmost());
    assert a in t.Topmost();
    TopmostCoversCompleted(h, t);
    assert OneProperBlock(t, a);
  }

  lemma BlockGivesWrong(h: Hasher, t: HashTree, a: nat)
    requires BothConsistent(h, t) && !exists c :: CollidesAt(h, t, c)
    requires OneProperBlock(t, a)
    ensures ReportedComplete(t) && !t.Matches(0) && t.Topmost() == {a}
  {
    MatchIffLeaves(h, t, a);
    forall m | t.Matches(m)
      ensures Covers(a, m)
    {
      MatchIffLeaves(h, t, m);
      if !Covers(a, m) {
        var l := LeafOutside(t, m, a);
      }
    }
    OneAbove(t, a);
  }
}
