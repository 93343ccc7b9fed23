/** The processes whose memory a build is charged with: the root and its descendants. */
module ProcessTree {

  /** `p`'s parent chain arrives at `root` after `n` links. */
  ghost predicate Climbs(parents: map<int, int>, p: int, root: int, n: nat)
    decreases n
  {
    if n == 0 then p == root else p in parents && Climbs(parents, parents[p], root, n - 1)
  }

  ghost predicate Descends(parents: map<int, int>, p: int, root: int) {
    exists n: nat :: Climbs(parents, p, root, n)
  }

  ghost predicate Closed(parents: map<int, int>, selected: set<int>) {
    forall p | p in parents && parents[p] in selected :: p in selected
  }

  function Children(parents: map<int, int>, selected: set<int>): set<int> {
    set p | p in parents && parents[p] in selected
  }

  lemma ClosedStops(parents: map<int, int>, selected: set<int>)
    ensures Closed(parents, selected) <==> selected + Children(parents, selected) == selected
  {
    if Closed(parents, selected) {
      forall p | p in Children(parents, selected)
        ensures p in selected
      {
      }
      assert selected + Children(parents, selected) == selected;
    }
    if selected + Children(parents, selected) == selected {
      forall p | p in parents && parents[p] in selected
        ensures p in selected
      {
        assert p in selected + Children(parents, selected);
      }
    }
  }

  lemma {:induction false} ClosedHoldsChains(parents: map<int, int>, selected: set<int>, p: int, root: int, n: nat)
    requires Closed(parents, selected) && root in selected && Climbs(parents, p, root, n)
    ensures p in selected
    decreases n
  {
    if n > 0 {
      ClosedHoldsChains(parents, selected, parents[p], root, n - 1);
    }
  }

  /** Grow the selection until it stops changing. The map may contain cycles. */
  method Tree(parents: map<int, int>, root: int) returns (selected: set<int>)
    ensures forall p :: p in selected <==> Descends(parents, p, root)
  {
    selected := {root};
    assert Climbs(parents, root, root, 0);
    while true
      invariant root in selected && selected <= {root} + parents.Keys
      invariant forall p | p in selected :: Descends(parents, p, root)
      decreases ({root} + parents.Keys) - selected
    {
      var enlarged := selected + Children(parents, selected);
      if enlarged == selected {
        break;
      }
      forall p | p in enlarged
        ensures Descends(parents, p, root)
      {
        if p !in selected {
          OneMore(parents, p, root);
        }
      }
      ClosedStops(parents, selected);
      ghost var q :| q in parents && parents[q] in selected && q !in selected;
      assert q in ({root} + parents.Keys) - selected && q !in ({root} + parents.Keys) - enlarged;
      selected := enlarged;
    }
    forall p | Descends(parents, p, root)
      ensures p in selected
    {
      ClosedStops(parents, selected);
      var n: nat :| Climbs(parents, p, root, n);
      ClosedHoldsChains(parents, selected, p, root, n);
    }
  }

  lemma OneMore(parents: map<int, int>, p: int, root: int)
    requires p in parents && Descends(parents, parents[p], root)
    ensures Descends(parents, p, root)
  {
    var n: nat :| Climbs(parents, parents[p], root, n);
    assert Climbs(parents, p, root, n + 1);
  }

  /** A cycle of parents that avoids the root never climbs to it. */
  lemma {:induction false} CycleLeftOut(parents: map<int, int>, cycle: set<int>, p: int, root: int, n: nat)
    requires forall q | q in cycle :: q in parents && parents[q] in cycle
    requires root !in cycle && p in cycle
    ensures !Climbs(parents, p, root, n)
    decreases n
  {
    if n > 0 {
      CycleLeftOut(parents, cycle, parents[p], root, n - 1);
    }
  }
}
